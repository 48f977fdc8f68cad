# A verified model of the Process Dashboard core

This project models the core of the Process Dashboard, a personal and team process tool,
in Dafny. It proves properties of that model. One module stands for each core source file;
the data repository is split over several modules, by component:

- **DataRepository** (`pspdash/data/DataRepository.java`).
  - `DataElements` models elements, their deferred values and maybeDelete's test.
  - `Datafiles` models the datafile text format: `name=value` lines, `#include`, comments and
    loading over the included file's defaults.
  - `DatafileRenames` models the three passes of performRenames.
  - `Repository` holds the `DataRepository` class, covering:
    - add, getValue, getInheritableValue and putValue with its recursion guard;
    - removeValue, guessDataFile and the dirty-count save of datafileModified;
    - saveDatafile's sparse output and lookupDefaultValue;
    - getID with Java's 32-bit `String.hashCode`, getPath, remapIDs and makeUniqueName;
    - the inconsistency bracket with its consistency observers.
  - `Freezer` models the DataFreezer: its freeze and thaw queues, performFreeze and
    performThaw through putValue, and the FrozenDataSet state tables.
- **WBSModel / WBSNode** (`teamdash/src/teamdash/wbs`).
  - `WBSTree` gives the outline on a sequence of indent levels: parent, children,
    descendants, visible rows and full names.
  - `WBSNodes` holds the `WBSNode` class: attributes, clone and the XML dump.
  - `WBSModels` holds the `WBSModel` class, covering:
    - add, makeNodeIDUnique, recalcRows and makeVisible;
    - indentNodes, deleteNodes, insertNodes/insertNodesAt and moveNodeUp/Down;
    - getRowsForNodes, getIndexesForRows and fireSimpleRowChangeEvent;
    - the workflow insertion helpers.
- **DataTableModel** (`DataTables`): column lookup, the dependency graph between calculated
  columns, the change bracket and recalculation order.
- **WBSDataWriter** (`WBSDataWriters`): the XML dump of a WBS with its per-type attribute
  writers.
- **GlobSearchEvaluator** (`GlobSearch`): and/or/not/glob search expressions over tagged
  values.
- **Defect** (`Defect`): the tab-separated line format of a defect and its round trip.
- **UpdateIzPackResourceFile** (`IzPackResources`): XML escaping and unescaping of resource
  values, and the merge of langpack files.
- **EditSubprojectList** (`SubprojectLists`): the numbered subproject slots, adding, editing
  and removing with compaction, and the validation of names and paths.
- **UserGroupManager** (`UserGroups`): the group map, the data elements that mirror groups,
  reloading a groups file, and saving with its bookkeeping of pending files.
- **RelationalOperators** (`RelationalOperators`): the comparison operators of the data
  language.
- **workflowToDateFilter.js** (`WorkflowFilter`): the filter panels, building evaluators,
  the meaning of each filter kind and the row and cell exclusion marks.

Two more modules hold shared helpers:

- `Wrappers` has Option and Result.
- `Strings` has Java and JavaScript string operations: indexOf, trim, lexicographic order
  and decimal formatting.

Where the source updates objects in place, the model is a class with fields, `modifies` and
`reads` frames. This applies to DataRepository, DataFreezer, FrozenDataSet, WBSModel,
WBSNode, DataTableModel, WBSDataWriter, GlobSearchEvaluator, SubprojectList,
UserGroupManager and the filter page. Pure logic is written as functions and lemmas.
Every loop in the source that builds a result is a method with invariants. Each such method
is proved against a specification function.

Calls into code outside the model are parameters of the operations that make them:

- regular expressions and Perl substitution;
- GlobPattern, ValueFactory and SimpleData comparison;
- file existence and write outcomes;
- random numbers and the clock.

## Model

| member | source | states |
|---|---|---|
| RelationalOperators.Operate | pspdash/data/compiler/RelationalOperators.java:70-74 | a null operand gives FALSE; otherwise the result is TRUE exactly when the operator's comparison holds, and FALSE otherwise |
| RelationalOperators.NullOperandIsFalse | pspdash/data/compiler/RelationalOperators.java:71 | every operator yields FALSE when either operand is null |
| RelationalOperators.BaseCalcIsFalse | pspdash/data/compiler/RelationalOperators.java:76-78 | the base operator's comparison is false, so it always yields FALSE |
| RelationalOperators.NeqNegatesEq | pspdash/data/compiler/RelationalOperators.java:40-46 | on two non-null operands, != is TRUE exactly when == is FALSE |
| RelationalOperators.LteqIsLtOrEq | pspdash/data/compiler/RelationalOperators.java:48-54 | <= is TRUE exactly when < or == is TRUE |
| RelationalOperators.GteqIsGtOrEq | pspdash/data/compiler/RelationalOperators.java:56-62 | >= is TRUE exactly when > or == is TRUE |
| Defect.Token | processdash/src/net/sourceforge/processdash/log/defects/Defect.java:63-68 | a null or empty field is stored as one space; otherwise each tab becomes a space and each newline becomes U+0001 (description) or a space (other fields), so a token is never empty and never holds a tab |
| Defect.Fields | processdash/src/net/sourceforge/processdash/log/defects/Defect.java:70-81 | the eight stored tokens, in field order and with the date saved as text, are non-empty and tab-free |
| Defect.ToString | processdash/src/net/sourceforge/processdash/log/defects/Defect.java:70-82 | the stored line tokenizes back into exactly the eight field tokens and ends with a tab |
| Defect.Tokens | processdash/src/net/sourceforge/processdash/log/defects/Defect.java:47 | StringTokenizer on tab yields the non-empty tab-free runs of the text |
| Defect.TokensOfJoin | processdash/src/net/sourceforge/processdash/log/defects/Defect.java:47-81 | tokenizing fields that were joined with tabs gives back exactly those fields |
| Defect.NextToken | processdash/src/net/sourceforge/processdash/log/defects/Defect.java:49-56 | nextToken fails exactly when no token is left, and otherwise returns the first remaining token and the position after it |
| Defect.FromTokens | processdash/src/net/sourceforge/processdash/log/defects/Defect.java:49-59 | a defect is built exactly when there are at least eight tokens; fewer gives the "Poor defect formatting" error |
| Defect.Parse | processdash/src/net/sourceforge/processdash/log/defects/Defect.java:45-61 | null input is refused; otherwise U+0001 is turned back into newline and the defect is built from the tab-separated tokens |
| Defect.TakeTokens | processdash/src/net/sourceforge/processdash/log/defects/Defect.java:49-57 | repeated nextToken yields the first n tokens, and fails exactly when fewer than n exist |
| Defect.ParseOfToString | processdash/src/net/sourceforge/processdash/log/defects/Defect.java:45-82 | parsing toString's output restores every string field holding no tab, newline or U+0001, and the date as parseDate of its saved text |
| Defect.FieldKept | processdash/src/net/sourceforge/processdash/log/defects/Defect.java:63-67 | a clean field survives token followed by the U+0001-to-newline replacement |
| GlobSearch.ExtractTextAfter | processdash/src/net/sourceforge/processdash/util/glob/GlobSearchEvaluator.java:120-127 | a result exists exactly for a string value starting with the prefix, and the value is the prefix followed by that result |
| GlobSearch.AndIsIntersection | processdash/src/net/sourceforge/processdash/util/glob/GlobSearchEvaluator.java:138-151 | an AND expression yields exactly the values that every one of its terms yields |
| GlobSearch.OrIsUnion | processdash/src/net/sourceforge/processdash/util/glob/GlobSearchEvaluator.java:153-161 | an OR expression yields exactly the values its AND part or one of its OR clauses yields |
| GlobSearch.NotOfNot | processdash/src/net/sourceforge/processdash/util/glob/GlobSearchEvaluator.java:130-136 | NOT of NOT gives back the operand's result within allValues, and a NOT never yields an instruction or an untagged value |
| GlobSearch.CollectAllValues | processdash/src/net/sourceforge/processdash/util/glob/GlobSearchEvaluator.java:60-66 | allValues is every value of every tag that is not a glob engine instruction |
| GlobSearch.AddNonInstructions | processdash/src/net/sourceforge/processdash/util/glob/GlobSearchEvaluator.java:62-65 | one tag's values that are not instructions are added to the accumulated set |
| GlobSearch.GlobSearchEvaluator.constructor | processdash/src/net/sourceforge/processdash/util/glob/GlobSearchEvaluator.java:56-69 | allValues is every tagged non-instruction value, and the initial result is allValues |
| GlobSearch.GlobSearchEvaluator.ExpandDeferredValues | processdash/src/net/sourceforge/processdash/util/glob/GlobSearchEvaluator.java:90-110 | values are returned unchanged when there is no deferred source or no deferred marker; otherwise each deferred token is replaced by the lazy data for the tag, and instructions are dropped |
| GlobSearch.GlobSearchEvaluator.CaseGlobMatchTerm | processdash/src/net/sourceforge/processdash/util/glob/GlobSearchEvaluator.java:75-88 | a glob term yields the union of the expanded values of every tag the pattern accepts |
| GlobSearch.GlobSearchEvaluator.ApplyUnary | processdash/src/net/sourceforge/processdash/util/glob/GlobSearchEvaluator.java:75-136 | a unary expression's result is its reference evaluation: a glob term, NOT as allValues minus the operand, or a nested expression |
| GlobSearch.GlobSearchEvaluator.ApplyAnd | processdash/src/net/sourceforge/processdash/util/glob/GlobSearchEvaluator.java:138-151 | the AND loop's result equals the reference evaluation of the AND expression |
| GlobSearch.GlobSearchEvaluator.ApplyExpr | processdash/src/net/sourceforge/processdash/util/glob/GlobSearchEvaluator.java:153-161 | the OR loop's result equals the reference evaluation of the expression |
| IzPackResources.Escape | processdash/lib/src/net/sourceforge/processdash/i18n/UpdateIzPackResourceFile.java:249-266 | the token loop's output equals the reference escaping: each of < > & ' " becomes its entity, carriage return is dropped, newline becomes the line separator, other text is kept |
| IzPackResources.PlainRunEnd | processdash/lib/src/net/sourceforge/processdash/i18n/UpdateIzPackResourceFile.java:250-253 | the tokenizer's plain token ends at the next delimiter or at the end of the text |
| IzPackResources.EscapeIdentity | processdash/lib/src/net/sourceforge/processdash/i18n/UpdateIzPackResourceFile.java:249-266 | text without the seven delimiters is left unchanged |
| IzPackResources.EscapedHasNoMarkup | processdash/lib/src/net/sourceforge/processdash/i18n/UpdateIzPackResourceFile.java:254-262 | escaped text holds no <, >, ", ' or carriage return, provided the line separator holds none |
| IzPackResources.UnescapeEscape | processdash/lib/src/net/sourceforge/processdash/i18n/UpdateIzPackResourceFile.java:249-266 | with the separator "\n", decoding the entities of escaped text restores any text that has no carriage return |
| IzPackResources.EmittedKeysComplete | processdash/lib/src/net/sourceforge/processdash/i18n/UpdateIzPackResourceFile.java:202-205 | the keys written are exactly the bundle keys whose "text." prefix agrees with the mode |
| IzPackResources.EmittedKeysSorted | processdash/lib/src/net/sourceforge/processdash/i18n/UpdateIzPackResourceFile.java:202-203 | filtering keys taken in TreeSet order keeps them strictly sorted |
| IzPackResources.WriteTranslations | processdash/lib/src/net/sourceforge/processdash/i18n/UpdateIzPackResourceFile.java:201-216 | the keys written are exactly the bundle keys the mode selects, in strictly increasing order, and the text is one str line per key, with "text." stripped in text mode and the value escaped |
| IzPackResources.EmitLines | processdash/lib/src/net/sourceforge/processdash/i18n/UpdateIzPackResourceFile.java:203-215 | the loop over the sorted keys emits the selected keys in order, one str line each |
| IzPackResources.StrippedIdsKeepOrder | processdash/lib/src/net/sourceforge/processdash/i18n/UpdateIzPackResourceFile.java:208-209 | stripping "text." keeps the ids of text mode in the order of their keys |
| IzPackResources.ReadLine | processdash/lib/src/net/sourceforge/processdash/i18n/UpdateIzPackResourceFile.java:218-231 | the bytes up to and including the first newline, ending where the line ends; null only when no byte is left |
| IzPackResources.Latin1 | processdash/lib/src/net/sourceforge/processdash/i18n/UpdateIzPackResourceFile.java:244 | decoding as ISO-8859-1 maps each byte to the character with that code |
| IzPackResources.KeptLangpackPrefix | processdash/lib/src/net/sourceforge/processdash/i18n/UpdateIzPackResourceFile.java:174-185 | an empty langpack fails (readLine gives null, and writing it throws); otherwise the kept prefix ends at a line boundary past the first line, no line after the first before it holds the opening comment or the closing tag, and the line at the cut holds one unless the input ends there |
| IzPackResources.ResourceBundleDate | processdash/lib/src/net/sourceforge/processdash/i18n/UpdateIzPackResourceFile.java:133-146 | the newest lastModified among Installer.properties and the Installer_<lang> files, or -1 when there are none |
| IzPackResources.NoUpdatesNeeded | processdash/lib/src/net/sourceforge/processdash/i18n/UpdateIzPackResourceFile.java:125-131 | true exactly when the langpack and the text file are both strictly newer than every bundle file, and than -1 |
| SubprojectLists.GetNum | teamdash/src/teamdash/templates/setup/EditSubprojectList.java:554-559 | a slot number is the decimal text of n, given a leading "0" when it has one digit, so it is always at least two characters |
| SubprojectLists.GetNumInjective | teamdash/src/teamdash/templates/setup/EditSubprojectList.java:554-559 | different slots never share a number |
| SubprojectLists.ValidateShortName | teamdash/src/teamdash/templates/setup/EditSubprojectList.java:377-392 | no error exactly when a name is given, is not blank after trimming, is made of letters and spaces only, and no subproject in another slot holds it; a missing or blank name gives the "must enter" error, and every error is one of the three messages |
| SubprojectLists.ValidatePath | teamdash/src/teamdash/templates/setup/EditSubprojectList.java:396-408 | no error exactly when a path is given, is not blank after trimming and no subproject in another slot uses it; every error is one of the two messages |
| SubprojectLists.AddAcceptsTakenName | teamdash/src/teamdash/templates/setup/EditSubprojectList.java:302-316 | the name check sees "A " next to an existing "A" as free, while doAdd then stores the trimmed "A" |
| SubprojectLists.ScanStopsAtFifthEmpty | teamdash/src/teamdash/templates/setup/EditSubprojectList.java:513-528 | the scan reads nothing past the fifth slot without a short name: two states agreeing up to there give the same subprojects |
| SubprojectLists.RemoveNum | teamdash/src/teamdash/templates/setup/EditSubprojectList.java:351-352 | removing a slot keeps exactly the listed subprojects in other slots |
| SubprojectLists.RemoveCompacts | teamdash/src/teamdash/templates/setup/EditSubprojectList.java:348-368 | after a removal the list reads back as the remaining subprojects in their order, renumbered from slot 00 |
| SubprojectLists.RemainingNamed | teamdash/src/teamdash/templates/setup/EditSubprojectList.java:351-352 | every subproject left after a removal has a non-empty short name |
| SubprojectLists.WrittenCompacted | teamdash/src/teamdash/templates/setup/EditSubprojectList.java:354-366 | writing the remaining subprojects into slots 00, 01, ... and clearing the next five leaves the slots compacted |
| SubprojectLists.SubprojectList.constructor | teamdash/src/teamdash/templates/setup/EditSubprojectList.java:536-566 | the list starts from the short names and paths already stored in the repository |
| SubprojectLists.SubprojectList.GetSubprojects | teamdash/src/teamdash/templates/setup/EditSubprojectList.java:513-528 | the scan loop returns the subprojects of the slot specification: slots upwards, stopping at the fifth one without a short name |
| SubprojectLists.FirstFreeSlot | teamdash/src/teamdash/templates/setup/EditSubprojectList.java:311-313 | the slot found has no short name and every slot below it has one |
| SubprojectLists.SubprojectList.DoAddAsWritten | teamdash/src/teamdash/templates/setup/EditSubprojectList.java:297-319 | the errors are those of the two checks on the untrimmed input; with an error nothing changes; otherwise the trimmed name and the path go into the first free slot and nothing else changes |
| SubprojectLists.SubprojectList.DoAdd | teamdash/src/teamdash/templates/setup/EditSubprojectList.java:297-319 | as doAdd, but the trimmed name is checked as well, so a successful add never stores a short name a listed subproject already has |
| SubprojectLists.SubprojectList.DoEdit | teamdash/src/teamdash/templates/setup/EditSubprojectList.java:322-344 | without a slot number nothing changes; otherwise the errors are those of the checks against the other slots, and with none the untrimmed name and the path replace that slot's values |
| SubprojectLists.SubprojectList.WriteSlots | teamdash/src/teamdash/templates/setup/EditSubprojectList.java:354-366 | slot n receives the n-th name and path, from slot 00 up, and other slots keep their values |
| SubprojectLists.SubprojectList.DoRemove | teamdash/src/teamdash/templates/setup/EditSubprojectList.java:348-368 | without a slot number nothing changes; otherwise the other subprojects are rewritten into slots 00, 01, ... in order, the next five slots are cleared, and the list reads back as them renumbered |
| WBSDataWriters.TranslateType | teamdash/src/teamdash/wbs/WBSDataWriter.java:92-106 | "Project" gives project, "Software Component" gives component, a type ending in " Document" gives document, "PSP Task" gives psp, and every other type gives task; each direction is stated as an if-and-only-if |
| WBSDataWriters.PhaseName | teamdash/src/teamdash/wbs/WBSDataWriter.java:165-169 | the phase name followed by " Task" gives the node type back |
| WBSDataWriters.FormatSize | teamdash/src/teamdash/wbs/WBSDataWriter.java:256-261 | a missing or empty size is written "0", any other size as its own text, so the result is never empty |
| WBSDataWriters.TeamTimesShape | teamdash/src/teamdash/wbs/WBSDataWriter.java:196-213 | the times are left out exactly when every team member's time is null, "0" or "0.0"; otherwise they start with a comma |
| WBSDataWriters.TeamTimesSpec | teamdash/src/teamdash/wbs/WBSDataWriter.java:196-213 | getTeamMemberTimes returns nothing exactly when every time is skipped; otherwise its text starts and ends with a comma |
| WBSDataWriters.AttrText | teamdash/src/teamdash/wbs/WBSDataWriter.java:120-129 | a missing value writes nothing; otherwise the attribute is written as a space, the name and the escaped value in single quotes |
| WBSDataWriters.Tabs | teamdash/src/teamdash/wbs/WBSDataWriter.java:110-113 | the indent is exactly depth tab characters |
| WBSDataWriters.TagEndsWithLetter | teamdash/src/teamdash/wbs/WBSDataWriter.java:92-106 | every element name is non-empty and ends with a lower-case letter |
| WBSDataWriters.SelfClosingIffLeaf | teamdash/src/teamdash/wbs/WBSDataWriter.java:79-88 | a node's element ends with "/>" exactly when the node has no children |
| WBSDataWriters.WBSDataWriter.constructor | teamdash/src/teamdash/wbs/WBSDataWriter.java:37-46 | the writer holds the tree, its data, the escaping and the phase types, and has written nothing |
| WBSDataWriters.WBSDataWriter.Write | teamdash/src/teamdash/wbs/WBSDataWriter.java:54-62 | the output gains the XML header followed by the root's element at depth 0 |
| WBSDataWriters.WBSDataWriter.WriteNode | teamdash/src/teamdash/wbs/WBSDataWriter.java:64-90 | the output gains the node's XML: indented start tag, name, id and type attributes, then a self-closing end or the children one level deeper and the indented end tag |
| WBSDataWriters.WBSDataWriter.WriteChildren | teamdash/src/teamdash/wbs/WBSDataWriter.java:84-85 | the output gains the XML of each child, in order, at the given depth |
| WBSDataWriters.WBSDataWriter.WriteIndent | teamdash/src/teamdash/wbs/WBSDataWriter.java:110-113 | the output gains depth tabs |
| WBSDataWriters.WBSDataWriter.WriteAttr | teamdash/src/teamdash/wbs/WBSDataWriter.java:120-129 | the output gains the attribute text, or nothing for a missing value |
| WBSDataWriters.WBSDataWriter.WriteTypeAttrs | teamdash/src/teamdash/wbs/WBSDataWriter.java:151-194 | the output gains the attributes of the writer registered for the element name: sizes for components and documents, phase and times for tasks, times then sizes for PSP tasks, nothing for projects |
| WBSDataWriters.WBSDataWriter.MaybeWriteSizeAttrs | teamdash/src/teamdash/wbs/WBSDataWriter.java:245-254 | without units nothing is written; otherwise the units and the six formatted sizes are written in order |
| WBSDataWriters.GetTeamMemberTimes | teamdash/src/teamdash/wbs/WBSDataWriter.java:196-213 | the loop's result equals the specification of the times text: a ",name=time" segment per time not skipped, closed by a comma, or nothing |
| DataTables.LastWithID | teamdash/src/teamdash/wbs/DataTableModel.java:206-209 | the position found is the highest one whose column has the ID, and -1 exactly when no column has it |
| DataTables.FirstWithName | teamdash/src/teamdash/wbs/DataTableModel.java:214 | the name search of the base table model gives the lowest position whose column has the name, and -1 exactly when none has it |
| DataTables.ColumnPosition | teamdash/src/teamdash/wbs/DataTableModel.java:206-215 | a column with the ID wins, the last such one; failing that, the first column with the name; -1 exactly when no column has the ID or the name |
| DataTables.Found | teamdash/src/teamdash/wbs/DataTableModel.java:80-96 | each listed ID is looked up with findColumn, in order |
| DataTables.SetToSeq | teamdash/src/teamdash/wbs/DataTableModel.java:293 | the set's elements, each once |
| DataTables.DataTableModel.constructor | teamdash/src/teamdash/wbs/DataTableModel.java:36-49 | the model over the given columns has no dirty column, no change under way and its dependencies initialized |
| DataTables.DataTableModel.InitializeColumnDependencies | teamdash/src/teamdash/wbs/DataTableModel.java:51-109 | a fresh square matrix in which column x depends on y exactly when x is calculated and lists y, or y is calculated and lists x as affected and x is calculated |
| DataTables.DataTableModel.CollectCalculated | teamdash/src/teamdash/wbs/DataTableModel.java:60-67 | the set found is exactly the calculated columns |
| DataTables.DataTableModel.RegisterDependsOn | teamdash/src/teamdash/wbs/DataTableModel.java:76-88 | every entry is kept, and the entries of column c for each listed column that findColumn finds are set |
| DataTables.DataTableModel.RegisterAffects | teamdash/src/teamdash/wbs/DataTableModel.java:90-107 | every entry is kept, and each listed calculated column that findColumn finds is marked as depending on c |
| DataTables.DataTableModel.FindColumn | teamdash/src/teamdash/wbs/DataTableModel.java:206-215 | the loop's result is the position specification: last ID match, else first name match, else -1 |
| DataTables.DataTableModel.ColumnChanged | teamdash/src/teamdash/wbs/DataTableModel.java:232-247 | the newly dirty columns are only calculated ones, each reached from the changed column through the dependency matrix; position -1 or an already dirty column changes nothing; a calculated, clean column is marked first; afterwards every column depending on the changed column or on a marked one is dirty |
| DataTables.DataTableModel.RecalcColumn | teamdash/src/teamdash/wbs/DataTableModel.java:303-341 | columns only leave the dirty set, each recalculated exactly once; a clean or waiting column does nothing; otherwise it is recalculated last and no longer dirty, and its dependencies that are not waiting end clean, the dirty ones recalculated before it |
| DataTables.DataTableModel.RecalcColumns | teamdash/src/teamdash/wbs/DataTableModel.java:287-301 | every dirty column is recalculated exactly once and none is left dirty |
| DataTables.DataTableModel.BeginChange | teamdash/src/teamdash/wbs/DataTableModel.java:257-263 | one more change is under way |
| DataTables.DataTableModel.EndChange | teamdash/src/teamdash/wbs/DataTableModel.java:266-273 | the depth drops by one but never below zero; the change that ends at depth zero recalculates every dirty column, any other leaves the dirty set alone |
| DataTables.DataTableModel.WBSChanged | teamdash/src/teamdash/wbs/DataTableModel.java:130-147 | every calculated column becomes dirty; outside any other change all of them are then recalculated, each once, and none stays dirty |
| DataTables.DataTableModel.NotifyColumnChanged | teamdash/src/teamdash/wbs/DataTableModel.java:222-230 | position -1 or a dirty column marks nothing; a calculated clean column is marked first; every column depending on it or on a marked column was dirty or is marked; outside any other change those and the previously dirty columns are recalculated and none stays dirty |
| DataTables.DataTableModel.SetValueAt | teamdash/src/teamdash/wbs/DataTableModel.java:192-203 | a missing node or a dirty column marks nothing; a calculated clean column is marked first; every column depending on it or on a marked column was dirty or is marked; outside any other change everything dirty is recalculated |
| DataTables.DataTableModel.AddDataColumn | teamdash/src/teamdash/wbs/DataTableModel.java:111-116 | the column is appended and the dependencies are recomputed for the longer list |
| WBSNodes.CloneStateIdempotent | teamdash/src/teamdash/wbs/WBSNode.java:270-288 | cloning a clone drops nothing more |
| WBSNodes.CloneKeepsExactlyNonTransient | teamdash/src/teamdash/wbs/WBSNode.java:276-282 | a clone has exactly the attributes whose name has no underscore or has an at-sign, each with its original value |
| WBSNodes.StripTransient | teamdash/src/teamdash/wbs/WBSNode.java:276-282 | the iterator loop leaves exactly the non-transient entries of the copied map |
| WBSNodes.IndentationWidth | teamdash/src/teamdash/wbs/WBSNode.java:209-211 | for every level from -1 up the line indent is min(2*(level+1), 60) spaces |
| WBSNodes.WrittenNamesSpec | teamdash/src/teamdash/wbs/WBSNode.java:233-243 | an attribute gets an attr element exactly when it has a non-empty value and, unless full output is asked for, no underscore in its name |
| WBSNodes.SelfClosingIffNoAttributes | teamdash/src/teamdash/wbs/WBSNode.java:213-264 | a node without written attributes is a single self-closing wbsNode tag; otherwise the element ends with the indented closing tag |
| WBSNodes.WBSNode.constructor | teamdash/src/teamdash/wbs/WBSNode.java:42-51 | a new node has the given name, type, level and expanded flag, unique ID -1, not read-only and no attributes |
| WBSNodes.WBSNode.SetAttribute | teamdash/src/teamdash/wbs/WBSNode.java:141-147 | the attribute reads back as the value set, every other attribute and field is unchanged |
| WBSNodes.WBSNode.Clone | teamdash/src/teamdash/wbs/WBSNode.java:270-288 | a new node whose state is this node's with the transient attributes dropped; this node is unchanged |
| WBSNodes.WBSNode.GetAsXML | teamdash/src/teamdash/wbs/WBSNode.java:207-265 | the text written is the node's XML: indentation, opening tag with type, expanded and readOnly only when present or true, one attr element per written attribute in iteration order, then the self-closing or closing tag |
| WBSNodes.WriteAttributes | teamdash/src/teamdash/wbs/WBSNode.java:227-250 | the attribute loop writes the attr elements of the written attributes in iteration order, and reports whether it wrote any exactly when one is written |
| WBSNodes.CloneNodeList | teamdash/src/teamdash/wbs/WBSNode.java:293-299 | new, pairwise different nodes, as many as the input and in its order, each a clone of the node at the same position |
| WBSTree.ParentBelow | teamdash/src/teamdash/wbs/WBSModel.java:272-279 | the result is the nearest earlier position indented less than the node, and none exactly when no earlier node is |
| WBSTree.RootHasNoParent | teamdash/src/teamdash/wbs/WBSModel.java:263-282 | the root has no parent |
| WBSTree.NonRootHasParent | teamdash/src/teamdash/wbs/WBSModel.java:263-282 | in a well-formed outline (root at level 0, other nodes at level 1 or more) every node but the root has a parent |
| WBSTree.DescendantEnd | teamdash/src/teamdash/wbs/WBSModel.java:342-367 | the descendants end at the first later node indented no deeper than the node, or at the end of the list |
| WBSTree.DescendantsAreTheRun | teamdash/src/teamdash/wbs/WBSModel.java:342-367 | a later node is a descendant exactly when every node from just after the parent up to it is indented deeper than the parent |
| WBSTree.Children | teamdash/src/teamdash/wbs/WBSModel.java:308-340 | the direct children are the following nodes up to the first one no deeper than the parent, each no deeper than every earlier child |
| WBSTree.ChildrenSpec | teamdash/src/teamdash/wbs/WBSModel.java:308-340 | the children listed are exactly the positions of the child relation, in increasing order, so nodes at uneven deeper indents still count as siblings |
| WBSTree.ParentIffChild | teamdash/src/teamdash/wbs/WBSModel.java:263-340 | getParent and getChildIndexes describe the same relation: the parent of k is p exactly when k is a child of p |
| WBSTree.ChildIsDescendant | teamdash/src/teamdash/wbs/WBSModel.java:308-367 | every child lies inside its parent's descendant run |
| WBSTree.ChildRunsDisjoint | teamdash/src/teamdash/wbs/WBSModel.java:308-367 | the descendants of an earlier child end at or before a later child |
| WBSTree.Visible | teamdash/src/teamdash/wbs/WBSModel.java:470-481 | the preorder walk from a node lists only node positions |
| WBSTree.Rows | teamdash/src/teamdash/wbs/WBSModel.java:470-481 | the visible rows list only node positions |
| WBSTree.VisibleInSubtree | teamdash/src/teamdash/wbs/WBSModel.java:470-481 | the walk from a node starts with it and lists only positions in its subtree, in increasing order |
| WBSTree.RowsShape | teamdash/src/teamdash/wbs/WBSModel.java:470-481 | the rows start with the root and list node positions in increasing order |
| WBSTree.ChildVisible | teamdash/src/teamdash/wbs/WBSModel.java:474-480 | a child of a node that is reached and is the root or expanded is reached too |
| WBSTree.VisibleTransitive | teamdash/src/teamdash/wbs/WBSModel.java:470-481 | the walk from a reached node is part of the walk that reached it |
| WBSTree.ReachedThroughParent | teamdash/src/teamdash/wbs/WBSModel.java:470-481 | a node reached by the walk, other than its start, is reached through its parent, which is the root or expanded |
| WBSTree.Ancestors | teamdash/src/teamdash/wbs/WBSModel.java:645-654 | the parents of a node, nearest first, all lie before it |
| WBSTree.VisibleIffAncestorsExpanded | teamdash/src/teamdash/wbs/WBSModel.java:470-481 | in a well-formed outline a node is a visible row exactly when every ancestor other than the root is expanded |
| WBSTree.VisibleMonotone | teamdash/src/teamdash/wbs/WBSModel.java:470-481 | expanding more nodes never hides a visible row |
| WBSTree.ExpandAll | teamdash/src/teamdash/wbs/WBSModel.java:645-654 | after makeVisible the flags are the old ones with every listed ancestor expanded |
| WBSTree.ExpandedAncestorsShow | teamdash/src/teamdash/wbs/WBSModel.java:645-654 | once its ancestors are expanded, a node is a visible row |
| WBSTree.FullNameDefined | teamdash/src/teamdash/wbs/WBSModel.java:284-293 | in a well-formed outline every node has a full name: the root's is "/" and its name, another node's is its parent's full name, "/" and its name |
| WBSTree.MoveUpDest | teamdash/src/teamdash/wbs/WBSModel.java:767-785 | the insertion position is -1 below position 2 or when no earlier node is no deeper than the moved one; otherwise it is the nearest earlier node no deeper than the moved one, with every node between them deeper |
| WBSTree.MoveUpFrom | teamdash/src/teamdash/wbs/WBSModel.java:777-782 | the walk up through the ancestors stops at the first node no deeper than the level, every node skipped over being deeper |
| WBSTree.MoveDownDest | teamdash/src/teamdash/wbs/WBSModel.java:816-840 | -1 exactly when nothing follows the moved block; after a shallower next node, the position after it; otherwise one past the next node's last descendant |
| WBSModels.RootNodeName | teamdash/src/teamdash/wbs/WBSModel.java:137-138 | the root keeps the given name unless it is missing or blank after trimming, in which case it is "Team Project" |
| WBSModels.MaxOf | teamdash/src/teamdash/wbs/WBSModel.java:397-401 | the running maximum is at least the old maxID and every ID in the list, and is one of them |
| WBSModels.UniqueIdUpdateOfRoot | teamdash/src/teamdash/wbs/WBSModel.java:387-415 | with the root alone and no ID on the new node, the node takes the root's ID and the root the next one |
| WBSModels.UniqueIdUpdateKeepsDistinct | teamdash/src/teamdash/wbs/WBSModel.java:387-415 | the IDs of the list and the new node stay pairwise distinct; only the root's ID may change, and then to one more than every ID seen |
| WBSModels.CommonPrefix | teamdash/src/teamdash/wbs/WBSModel.java:497-500 | the length of the longest run at the start on which the two row arrays agree |
| WBSModels.SingleBlockAtPrefix | teamdash/src/teamdash/wbs/WBSModel.java:483-511 | the longer row array is the shorter one with one contiguous block inserted exactly when the rest of the short one, after the common prefix, matches the end of the long one |
| WBSModels.MatchingPrefix | teamdash/src/teamdash/wbs/WBSModel.java:497-500 | the first loop finds the length of the common prefix |
| WBSModels.MatchingTails | teamdash/src/teamdash/wbs/WBSModel.java:506-513 | the second loop succeeds exactly when the rest of the short array matches the end of the long one |
| WBSModels.FireSimpleRowChangeEvent | teamdash/src/teamdash/wbs/WBSModel.java:483-535 | true exactly when the arrays differ by one contiguous block; identical arrays give true and no events; otherwise an update of the row before the change, then an insert or delete of the block's rows |
| WBSModels.PositionOf | teamdash/src/teamdash/wbs/WBSModel.java:202-204 | indexOf gives the first position holding the node, and -1 exactly when it is absent |
| WBSModels.RowOf | teamdash/src/teamdash/wbs/WBSModel.java:640-644 | nodePosToRow gives a row showing the position, and -1 exactly when none does |
| WBSModels.RowsForNodes | teamdash/src/teamdash/wbs/WBSModel.java:564-573 | getRowsForNodes keeps, in list order, a valid row for each listed node that is visible |
| WBSModels.PositionRows | teamdash/src/teamdash/wbs/WBSModel.java:616-622 | the new selection holds, in order, the rows that now show the indented positions, skipping hidden ones |
| WBSModels.IndexesForRows | teamdash/src/teamdash/wbs/WBSModel.java:539-553 | the positions collected for the selected rows are all node positions |
| WBSModels.IndexesForRowsSkipRoot | teamdash/src/teamdash/wbs/WBSModel.java:543 | with the root excluded no collected position is the root's |
| WBSModels.IndentedSpec | teamdash/src/teamdash/wbs/WBSModel.java:596-602 | after the indent loop each level has moved by delta once for each time its position was listed |
| WBSModels.IndentKeepsWellFormed | teamdash/src/teamdash/wbs/WBSModel.java:576-593 | a legal indent of distinct non-root positions keeps the root alone at level 0 and every other node at level 1 or more |
| WBSModels.IndentUndo | teamdash/src/teamdash/wbs/WBSModel.java:596-602 | indenting by delta and then by -delta restores every level |
| WBSModels.ShowEachExpandsAncestors | teamdash/src/teamdash/wbs/WBSModel.java:645-666 | makeVisible only ever expands nodes, and only ancestors of the listed positions |
| WBSModels.ShowEachShows | teamdash/src/teamdash/wbs/WBSModel.java:645-666 | after makeVisible of each listed position, each of them is a visible row |
| WBSModels.WithoutMembers | teamdash/src/teamdash/wbs/WBSModel.java:677-679 | the removal loop keeps exactly the nodes that are not listed for deletion |
| WBSModels.WithoutKeepsWellFormed | teamdash/src/teamdash/wbs/WBSModel.java:670-693 | deleting nodes other than the root keeps the outline well formed |
| WBSModels.InsertAsWrittenBeforeRoot | teamdash/src/teamdash/wbs/WBSModel.java:703-712 | as written, row 0 gives position 0, the root's own, so the nodes are inserted before the root |
| WBSModels.InsertPosAfterRoot | teamdash/src/teamdash/wbs/WBSModel.java:702-703 | with row 0 mapped to position 1 as intended, no insertion position lies before the root, and any other row in the table maps to the node it shows |
| WBSModels.ClampRow | teamdash/src/teamdash/wbs/WBSModel.java:173 | rows below 1 become 1, and others stay |
| WBSModels.AddPosAfterRoot | teamdash/src/teamdash/wbs/WBSModel.java:171-187 | add(beforeRow, node) puts the node after the root and no further than the end of the list, before the node on the clamped row when that row exists |
| WBSModels.PrepareBatchSnoc | teamdash/src/teamdash/wbs/WBSModel.java:417-422 | preparing one more node of a batch applies makeNodeIDUnique to it, against the list alone |
| WBSModels.NewSourceIDsContains | teamdash/src/teamdash/wbs/WBSModel.java:938-949 | the new source ID is always one of the comma-separated fields of the result, and an existing list is kept as its start |
| WBSModels.NewSourceIDsIdempotent | teamdash/src/teamdash/wbs/WBSModel.java:938-949 | adding the same source ID twice gives the same list as adding it once |
| WBSModels.SourceIDsAfterWorkflowInsert | teamdash/src/teamdash/wbs/WBSModel.java:938-949 | as written, the source ID list of a node inserted from a workflow holds an Integer, so reading it as a String fails; read as text, the list keeps the old ID and gains the new one |
| WBSModels.WorkflowCopySpec | teamdash/src/teamdash/wbs/WBSModel.java:986-991 | a workflow copy keeps every field but the level, moved by the indent difference, and the attributes, which are the clone's with the source ID set to the workflow node's ID |
| WBSModels.WorkflowCopies | teamdash/src/teamdash/wbs/WBSModel.java:951-984 | one workflow copy per copied position, in order |
| WBSModels.NamesAt | teamdash/src/teamdash/wbs/WBSModel.java:960-963 | the set holds exactly the names of the listed children |
| WBSModels.WorkflowSources | teamdash/src/teamdash/wbs/WBSModel.java:966-981 | the workflow positions copied are all node positions |
| WBSModels.WorkflowSourcesAllTaken | teamdash/src/teamdash/wbs/WBSModel.java:966-981 | nothing is copied exactly when every workflow child's name is already taken under the destination |
| WBSModels.WorkflowSourcesAreUntakenSubtrees | teamdash/src/teamdash/wbs/WBSModel.java:966-981 | a position is copied exactly when it lies in the subtree of a workflow child whose name is not taken, and every such subtree is copied whole |
| WBSModels.WorkflowSourcesOfChildren | teamdash/src/teamdash/wbs/WBSModel.java:966-981 | the copied positions are in outline order, none twice |
| WBSModels.WBSModel.constructor | teamdash/src/teamdash/wbs/WBSModel.java:135-146 | a root named by the given name (or the default) at level 0 and, when asked, one "Software Component" at level 1; the root's ID is the random number's low 24 bits, handed to the component when one is added, the root then taking the next ID |
| WBSModels.WBSModel.Add | teamdash/src/teamdash/wbs/WBSModel.java:158-161 | the node, its ID made unique, goes to the end of the list; the rows are recalculated |
| WBSModels.WBSModel.AddBefore | teamdash/src/teamdash/wbs/WBSModel.java:171-187 | the node, its ID made unique, goes in before the node on the clamped row, never before the root, or at the end past the table |
| WBSModels.WBSModel.MakeNodeIDUnique | teamdash/src/teamdash/wbs/WBSModel.java:387-415 | the IDs become those of the unique-ID update: a node whose ID is not positive or already used takes the root's ID and the root one more than the largest ID seen |
| WBSModels.WBSModel.ScanIds | teamdash/src/teamdash/wbs/WBSModel.java:389-402 | the scan finds the largest ID seen and whether the node's ID is positive and held by no node |
| WBSModels.WBSModel.RecalcRows | teamdash/src/teamdash/wbs/WBSModel.java:451-481 | the rows become the preorder walk of the outline |
| WBSModels.WBSModel.AppendVisible | teamdash/src/teamdash/wbs/WBSModel.java:470-481 | recalcRows(list, pos) appends the walk from pos to the list |
| WBSModels.WBSModel.IndexOfNode | teamdash/src/teamdash/wbs/WBSModel.java:202-204 | the node's first position, or -1 |
| WBSModels.WBSModel.GetParent | teamdash/src/teamdash/wbs/WBSModel.java:263-282 | null for a missing node or one not in the list; otherwise the node at the nearest earlier position with a smaller level, or null when there is none |
| WBSModels.WBSModel.GetFullName | teamdash/src/teamdash/wbs/WBSModel.java:284-293 | None for a node not in the list; otherwise its path of names from the root |
| WBSModels.WBSModel.GetChildIndexes | teamdash/src/teamdash/wbs/WBSModel.java:295-306 | None for a node not in the list; otherwise its children |
| WBSModels.WBSModel.ChildIndexesAt | teamdash/src/teamdash/wbs/WBSModel.java:308-340 | the scan loop returns exactly the children specification |
| WBSModels.WBSModel.GetDescendantIndexes | teamdash/src/teamdash/wbs/WBSModel.java:342-367 | the positions after pos as long as they are deeper than the node; for the node at pos, exactly its descendants |
| WBSModels.WBSModel.MakeVisible | teamdash/src/teamdash/wbs/WBSModel.java:645-654 | every ancestor of the node at pos is expanded; a position outside the list changes nothing |
| WBSModels.WBSModel.ExpandAncestors | teamdash/src/teamdash/wbs/WBSModel.java:648-652 | the walk up from parent to parent expands exactly the ancestors |
| WBSModels.WBSModel.ParentPosition | teamdash/src/teamdash/wbs/WBSModel.java:272-279 | the scan returns the parent specification |
| WBSModels.WBSModel.MakeVisibleList | teamdash/src/teamdash/wbs/WBSModel.java:655-666 | each listed position that is not a row when reached is made visible, and the result tells whether any was not |
| WBSModels.WBSModel.GetNodeForRow | teamdash/src/teamdash/wbs/WBSModel.java:197-200 | null outside the table, otherwise the node shown on the row |
| WBSModels.WBSModel.GetIndexesForRows | teamdash/src/teamdash/wbs/WBSModel.java:539-553 | the positions of the selected rows, skipping row 0 when asked and rows outside the table, each collapsed node followed by its hidden descendants |
| WBSModels.WBSModel.CheckIndent | teamdash/src/teamdash/wbs/WBSModel.java:581-592 | the legality loop succeeds exactly when no listed node would drop below level 1 |
| WBSModels.WBSModel.ShiftLevels | teamdash/src/teamdash/wbs/WBSModel.java:596-602 | each listed node's level moves by delta |
| WBSModels.WBSModel.IndentNodes | teamdash/src/teamdash/wbs/WBSModel.java:576-623 | None, with nothing changed, exactly for a zero delta or an illegal outdent; otherwise the levels move, nodes visible before are shown again, the result is the rows showing the moved nodes, and a well-formed outline stays well formed |
| WBSModels.WBSModel.RemoveNode | teamdash/src/teamdash/wbs/WBSModel.java:677-679 | List.remove drops the first occurrence and reports whether there was one |
| WBSModels.WBSModel.RemoveNodes | teamdash/src/teamdash/wbs/WBSModel.java:677-679 | the listed nodes leave the list, order kept, and the result tells whether any was present |
| WBSModels.WBSModel.DeleteNodes | teamdash/src/teamdash/wbs/WBSModel.java:670-693 | the listed nodes leave the list; if any was there, the rows are recalculated and nodes visible before are shown again, otherwise nothing else changes; the deleted nodes keep their expanded flags; deleting nodes other than the root keeps the outline well formed |
| WBSModels.WBSModel.PrepareNodes | teamdash/src/teamdash/wbs/WBSModel.java:417-422 | makeNodeIDUnique is applied to each batch node in turn |
| WBSModels.WBSModel.InsertNodes | teamdash/src/teamdash/wbs/WBSModel.java:695-717 | an empty batch changes nothing (list, rows, IDs, counter, flags); otherwise the batch goes in at the intended position, never before the root, with its IDs made unique against the list and the counter advanced as insertNodesAt does, the nodes shown before and the first inserted one are shown, and the result is the rows showing the batch |
| WBSModels.WBSModel.InsertNodesAt | teamdash/src/teamdash/wbs/WBSModel.java:719-745 | an empty batch changes nothing; otherwise the batch's IDs are made unique, the batch enters at the position or at the end, and the nodes visible before and the first inserted one are shown |
| WBSModels.WBSModel.GetDescendants | teamdash/src/teamdash/wbs/WBSModel.java:369-376 | the nodes of the run after the node that are deeper than it |
| WBSModels.WBSModel.GetMoveNodeUpInsertionPos | teamdash/src/teamdash/wbs/WBSModel.java:767-785 | the loop returns the move-up position specification |
| WBSModels.WBSModel.GetMoveNodeDownInsertionPos | teamdash/src/teamdash/wbs/WBSModel.java:816-840 | the loop returns the move-down position specification |
| WBSModels.WBSModel.MoveNodeUp | teamdash/src/teamdash/wbs/WBSModel.java:753-765 | None, with nothing changed, when there is no insertion position after the root; otherwise the node's subtree moves in front of that position, its levels and IDs move with it (IDs only renumbered where makeNodeIDUnique would, so unchanged when the IDs are distinct and positive), the flags are those deleteNodes then insertNodesAt leave (nodes shown before, and the moved node, shown again), and the result is its rows |
| WBSModels.WBSModel.MoveNodeDown | teamdash/src/teamdash/wbs/WBSModel.java:798-814 | None, with nothing changed, for a node not in the list or whose subtree is last; otherwise the subtree moves past the next node (and that node's subtree when it is no shallower), its levels and IDs move with it (unchanged IDs when they are distinct and positive), the flags are those deleteNodes then insertNodesAt leave, and the result is its rows |
| WBSModels.WBSModel.MoveBlockUp | teamdash/src/teamdash/wbs/WBSModel.java:760-764 | the subtree at `pos` goes in front of position `d`, with its levels, IDs and flags as moveNodeUp states |
| WBSModels.WBSModel.MoveBlockDown | teamdash/src/teamdash/wbs/WBSModel.java:810-813 | the subtree at `pos` goes in front of the node at `dest`, with its levels, IDs and flags as moveNodeDown states |
| WBSModels.WBSModel.MoveBlockTo | teamdash/src/teamdash/wbs/WBSModel.java:760-763 | deleteNodes of the subtree then insertNodesAt at `k`: the block re-enters the rest of the list at `k`, its levels with it, its IDs checked against the rest, and the flags as MovedFlags gives them |
| WBSModels.WBSModel.RemoveBlock | teamdash/src/teamdash/wbs/WBSModel.java:670-693 | deleteNodes of a contiguous block: the rest of the list keeps its order, IDs and levels, the block nodes keep theirs, and the nodes shown before that stay are shown again |
| WBSModels.WBSModel.InsertBlock | teamdash/src/teamdash/wbs/WBSModel.java:719-745 | insertNodesAt of the removed block at `k`: the block's IDs, levels and flags re-enter at `k` and the flags end as MovedFlags gives them |
| WBSModels.WBSModel.InsertBlockAt | teamdash/src/teamdash/wbs/WBSModel.java:719-745 | insertNodesAt of a block not in the list at `k` inside it: list, IDs, levels and flags as insertNodesAt states |
| WBSModels.DownTarget | teamdash/src/teamdash/wbs/WBSModel.java:812 | moveNodeDown's insertion index counted without the moving block lies after the block's old start and within the rest of the list |
| WBSModels.PrepareBatchKeeps | teamdash/src/teamdash/wbs/WBSModel.java:380-422 | a batch of positive IDs none of which the list holds keeps every ID, and the list keeps its IDs |
| WBSModels.MoveKeepsIds | teamdash/src/teamdash/wbs/WBSModel.java:380-422 | when the list's IDs are distinct and the moved ones positive, reinserting a block keeps every ID with its node |
| WBSModels.MovedFlagsAfter | teamdash/src/teamdash/wbs/WBSModel.java:760-763 | the flags after a move are the flags deleteNodes leaves, with the block's own flags reinserted at `k`, and the nodes shown after the deletion plus the moved node made visible |
| WBSModels.WBSModel.GetRowsForNodes | teamdash/src/teamdash/wbs/WBSModel.java:564-573 | the loop returns the visible rows of the listed nodes and changes no ID, level or flag |
| WBSModels.WBSModel.AddWorkflowSourceID | teamdash/src/teamdash/wbs/WBSModel.java:938-949 | the attribute becomes the comma-separated list with the new ID added unless it is already there; every other attribute is unchanged |
| WBSModels.WBSModel.GetChildren | teamdash/src/teamdash/wbs/WBSModel.java:242-259 | no nodes for a node not in the list; otherwise the child nodes in order |
| WBSModels.WBSModel.CalcInsertWorkflow | teamdash/src/teamdash/wbs/WBSModel.java:951-984 | fresh nodes that are the workflow copies of each workflow child whose name no child of the destination has, each followed by its descendants |
| WBSModels.WBSModel.NodePosToRow | teamdash/src/teamdash/wbs/WBSModel.java:640-644 | the loop returns the row showing the position, or -1 |
| DataElements.Realize | pspdash/data/DataRepository.java:215-227 | a computation that succeeds gives its value; one that fails gives malformed data holding the placeholder's save string |
| DataElements.SetValue | pspdash/data/DataRepository.java:208-213 | the value is replaced and the element is deferred exactly when the new value is deferred data; datafile and listeners are kept |
| DataElements.Realized | pspdash/data/DataRepository.java:191-227 | reading a deferred element swaps the placeholder for its realized value and clears the deferred flag; an element not deferred is unchanged; a flag on a value that is no deferred data only clears the flag |
| DataElements.RealizeIsIdempotent | pspdash/data/DataRepository.java:191-227 | realizing twice is realizing once, and realization never changes the value getValue reports |
| DataElements.Disposed | pspdash/data/DataRepository.java:229-232 | disposeValue keeps the value, datafile and listeners, and clears the deferred flag |
| DataElements.SaveStringChangedSpec | pspdash/data/DataRepository.java:1314-1318 | the datafile is marked only when exactly one of old and new is null, or both have values with different save strings; an unchanged value never marks it |
| DataElements.DiscardableSpec | pspdash/data/DataRepository.java:1880-1898 | an element with a listener is never removed; one with a value is removed only when its listener list exists but is empty and it has no datafile; one without a value is removed exactly when its listener list was never created or is empty |
| DataElements.RemoveFirst | pspdash/data/DataRepository.java:1912 | removeElement drops one occurrence of the listener when present and keeps every other listener |
| DataElements.RemoveFirstOfDistinct | pspdash/data/DataRepository.java:1912 | in a list without repeats, removing the listener leaves none of it and no repeats |
| Datafiles.AssignLineFails | pspdash/data/DataRepository.java:1466-1479 | one line fails to load exactly when it is neither blank, nor a comment starting with "=", nor holds an "="; the failure is InvalidDatafileFormat |
| Datafiles.AssignFailsIff | pspdash/data/DataRepository.java:1464-1480 | loading fails exactly when some line is malformed, and then with InvalidDatafileFormat |
| Datafiles.AssignAppend | pspdash/data/DataRepository.java:1464-1480 | loading two runs of lines is loading the first and then the second over its result |
| Datafiles.ReadAssignments | pspdash/data/DataRepository.java:1464-1480 | the read loop gives the specification of loading the lines: blank and comment lines skipped, name before the first "=", value after it, "null" or "=null" removing the name |
| Datafiles.SavedTextLoads | pspdash/data/DataRepository.java:1648-1653 | a value written with "=" before it when it is not editable reads back with its save string and its editable flag, for any save string not itself starting with "=" |
| Datafiles.Sparse | pspdash/data/DataRepository.java:1789-1792 | the values written are exactly those that differ from the inherited default or have none, unchanged |
| Datafiles.SparseLosesNothing | pspdash/data/DataRepository.java:1789-1792 | leaving out the values equal to their defaults loses nothing once the defaults are read back first |
| Datafiles.LinesOf | pspdash/data/DataRepository.java:1794-1797 | one name=value line per name, in order |
| Datafiles.SavedLineLoads | pspdash/data/DataRepository.java:1466-1479 | a saved line loads back as the assignment it was written from |
| Datafiles.SavedLineNotSkippable | pspdash/data/DataRepository.java:1467-1468 | a saved line is neither blank nor a comment |
| Datafiles.SavedLineSplits | pspdash/data/DataRepository.java:1470-1474 | the first "=" of a saved line is the one right after the name |
| Datafiles.LinesOfLoad | pspdash/data/DataRepository.java:1464-1480 | loading saved lines sets each saved name to its saved text, the later line of a name winning |
| Datafiles.SaveThenLoad | pspdash/data/DataRepository.java:1756-1797 | reading a saved body (prefix comment and one line per value that differs from its default, in any order) over the inherited defaults gives back every saved value |
| Datafiles.Load | pspdash/data/DataRepository.java:1420-1486 | a file without an include line loads as its assignments; one with an include line loads the included values (cached, or loaded once and cached) and then its own lines over them; the cache only grows |
| Datafiles.SavedFileLoads | pspdash/data/DataRepository.java:1722-1797 | loading the lines a save writes, with the include line of an inheriting file, gives back the defaults overlaid with every saved value, and the same include name |
| Datafiles.IncludingFileLoads | pspdash/data/DataRepository.java:1420-1486 | an inheriting file's saved lines load as the cached defaults overlaid with its values, keeping the include name |
| DatafileRenames.PlainValues | pspdash/data/DataRepository.java:1539-1557 | a value stays among the data exactly when it starts with neither renaming prefix |
| DatafileRenames.SimpleRenames | pspdash/data/DataRepository.java:1548-1551 | a value starting with `<=` becomes a simple renaming operation from its key to the rest of the value |
| DatafileRenames.PatternRenames | pspdash/data/DataRepository.java:1552-1555 | a value starting with `>~` becomes a pattern renaming operation from its key to the rest of the value |
| DatafileRenames.PartitionIsExact | pspdash/data/DataRepository.java:1539-1557 | the first pass puts every value into exactly one of the three kinds and the values can be rebuilt from them |
| DatafileRenames.SplitRenames | pspdash/data/DataRepository.java:1539-1557 | the loop that removes renaming operations from the values leaves exactly the plain values and the two operation tables |
| DatafileRenames.AddPatternRenames | pspdash/data/DataRepository.java:1559-1585 | the second pass fails with InvalidDatafileFormat exactly when some pattern is malformed for some data name; otherwise every name a pattern changes becomes a simple rename to it |
| DatafileRenames.ApplyPattern | pspdash/data/DataRepository.java:1565-1584 | one pattern applied to every data name fails exactly when its substitution fails on some name, and adds a rename for each name it changes |
| DatafileRenames.NoPatternsTable | pspdash/data/DataRepository.java:1559-1585 | without pattern operations the rename table is just the simple operations |
| DatafileRenames.FollowChain | pspdash/data/DataRepository.java:1591-1595 | taking one operation and following old names back while no value turns up removes at least one operation, keeps the pass invariant, and a value found is the data value at the end of a path of operations from the new name |
| DatafileRenames.ApplyRenames | pspdash/data/DataRepository.java:1587-1602 | the third pass, in any key order, ends with the outcome the rename table determines: every name left holds the data value of a data name its chain of operations reaches (possibly itself), untouched data names keep their values, renamed-away names are gone, and it reports whether any value moved |
| DatafileRenames.PathExtend | pspdash/data/DataRepository.java:1594-1595 | following one more operation from the end of a path of operations gives a path from the same start |
| DatafileRenames.PathJoin | pspdash/data/DataRepository.java:1591-1599 | a path of operations to an old name, joined to the path that name's value came along, traces that value to the path's start |
| DatafileRenames.TracedValues | pspdash/data/DataRepository.java:1597-1599 | when each value left has a recorded path to its data name, every value left is traced |
| DatafileRenames.UntargetedKeeps | pspdash/data/DataRepository.java:1588-1602 | after the third pass a name no operation renames to that still holds a value holds its own data value |
| DatafileRenames.SingleTargetValue | pspdash/data/DataRepository.java:1588-1602 | with the single operation `new=<=old`, a new name that was no data name can hold only the old name's data value |
| DatafileRenames.SingleRenameMoves | pspdash/data/DataRepository.java:1588-1602 | the single operation `new=<=old` of a data name to a fresh name moves exactly that value: the old name is gone, the new one holds its value, a rename is reported, and every other name keeps its data value or lack of one |
| DatafileRenames.ChainResolves | pspdash/data/DataRepository.java:1505-1510 | a transitive chain of simple renames over one value leaves only the last name, holding that value, whatever order the operations are taken in |
| DatafileRenames.ExampleSplit | pspdash/data/DataRepository.java:1505-1510 | the first pass splits `foo=1`, `bar=<=foo`, `baz=<=bar` into the value `foo=1` and two simple renames |
| DatafileRenames.TransitiveRenameExample | pspdash/data/DataRepository.java:1505-1510 | that example ends as the single value `baz=1`, and a rename is reported |
| DatafileRenames.PerformRenames | pspdash/data/DataRepository.java:1533-1604 | fails exactly when a pattern operation is malformed; otherwise no renaming operation survives in the values, the result is the outcome of a valid rename table, each value left traced along that table's operations to a data value, and a datafile without operations is returned unchanged with no rename reported |
| Repository.DirtiedBounded | pspdash/data/DataRepository.java:1701-1707 | a dirty count never exceeds MAX_DIRTY and drops to 0 exactly when the modification past MAX_DIRTY saves the file |
| Repository.DirtyMarkedBounded | pspdash/data/DataRepository.java:1701-1707 | marking a datafile modified keeps every dirty count within MAX_DIRTY |
| Repository.NewElement | pspdash/data/DataRepository.java:1142-1149 | a new element holds the given value, belongs to the given datafile and has never been listened to |
| Repository.GuessDataFile | pspdash/data/DataRepository.java:1202-1217 | a name containing `//` has no datafile; otherwise the result is the unique best host (writable, longest prefix, latest opened wins ties), and none means no writable datafile's prefix covers the name |
| Repository.BestHostUnique | pspdash/data/DataRepository.java:1202-1217 | there is only one best host for a name |
| Repository.ReplacedReadsBack | pspdash/data/DataRepository.java:208-227 | after setValue, getValue gives back the stored value (realized if deferred) and the element keeps its datafile and listeners |
| Repository.AfterMaybeDelete | pspdash/data/DataRepository.java:1880-1898 | an element is thrown away exactly when it is discardable; a kept one has the same value, datafile and listeners |
| Repository.MaybeDeleted | pspdash/data/DataRepository.java:1880-1898 | maybeDelete removes the name exactly when its element is discardable and leaves every other name alone |
| Repository.Cleared | pspdash/data/DataRepository.java:1164-1199 | removeValue leaves the element with no value, no datafile and the same listeners |
| Repository.Looked | pspdash/data/DataRepository.java:1256-1262 | reading a value changes no value that any name reads |
| Repository.ParentPrefix | pspdash/data/DataRepository.java:1283-1289 | the next prefix tried is a strictly shorter prefix of the current one |
| Repository.Ancestors | pspdash/data/DataRepository.java:1278-1293 | the prefixes getInheritableValue looks under start at the given one, shrink strictly, each a prefix of the one before, and end at the empty prefix |
| Repository.FirstValueSpec | pspdash/data/DataRepository.java:1278-1293 | the value found is the one under the first prefix that has a value, and none is found exactly when no prefix has one |
| Repository.AncestorStep | pspdash/data/DataRepository.java:1281-1292 | the walk goes on at the parent prefix: its own value, or failing that the one found further out |
| Repository.AncestorsOfRoot | pspdash/data/DataRepository.java:1281 | the walk from the empty prefix looks only there |
| Repository.FileValues | pspdash/data/DataRepository.java:1771-1793 | every element of the datafile with an immediate value is saved under its name within the file, with its save string marked `=` when read-only |
| Repository.FileValuesNames | pspdash/data/DataRepository.java:1784-1789 | every saved name is that of an element of the datafile |
| Repository.LocalNamesDiffer | pspdash/data/DataRepository.java:1784-1789 | two elements of one datafile never collide on their name within the file |
| Repository.SamePrefixedNames | pspdash/data/DataRepository.java:1789 | stripping the same prefix from two names is injective |
| Repository.SavedBody | pspdash/data/DataRepository.java:1771-1800 | the body is one `name=value` line per element whose value differs from the inherited default, in an arbitrary enumeration of exactly those values |
| Repository.SaveLines | pspdash/data/DataRepository.java:1750-1800 | the lines written are the header (include line, prefix comment) followed by that body |
| Repository.SaveHoldsLine | pspdash/data/DataRepository.java:1771-1800 | a save writes the line of every value it saves |
| Repository.RecountKeepsConsistent | pspdash/data/DataRepository.java:1769 | resetting a dirty count keeps the repository consistent |
| Repository.PutKeepsConsistent | pspdash/data/DataRepository.java:1142-1149 | storing an element in an open datafile whose prefix covers its name keeps the table consistent |
| Repository.MaybeDeletedKeepsConsistent | pspdash/data/DataRepository.java:1880-1898 | maybeDelete keeps the table consistent |
| Repository.ValueAtOfSame | pspdash/data/DataRepository.java:215-227 | realizing elements changes no value read |
| Repository.FirstValueOfSame | pspdash/data/DataRepository.java:1278-1293 | realizing elements changes no inherited value found |
| Repository.SameValuesKeepConsistent | pspdash/data/DataRepository.java:215-227 | realizing elements keeps the table consistent |
| Repository.PutReadsBack | pspdash/data/DataRepository.java:1299-1344 | after putValue on an existing element getValue returns the value stored, unless the element was orphaned and thrown away, and no other name changes |
| Repository.LookupDefaultValue | pspdash/data/DataRepository.java:1350-1368 | a default exists only for an element that has a datafile which inherits from an include file |
| Repository.DefaultDecidesSave | pspdash/data/DataRepository.java:1350-1368 | an element with a value is written by a save exactly when its save string differs from its default |
| Repository.RemovalSavedAsWritten | pspdash/data/DataRepository.java:1164-1199 | with the datafile marked before the element is cleared, a mark that takes the count past MAX_DIRTY writes the removed value |
| Repository.RemovalNotSaved | pspdash/data/DataRepository.java:1164-1199 | with the element cleared first, no save writes the removed name |
| Repository.Wrap32 | pspdash/data/DataRepository.java:2083-2088 | a value wrapped to a Java int lies in the int range and is congruent to the value modulo 2^32 |
| Repository.WrapOfInt | pspdash/data/DataRepository.java:2083 | wrapping leaves an int unchanged |
| Repository.StringHash | pspdash/data/DataRepository.java:2083 | String.hashCode: h = 31 * h + u over the UTF-16 code units, wrapped to a Java int |
| Repository.HashOfSurrogatePair | pspdash/data/DataRepository.java:2083 | a character above U+FFFF is hashed as its two surrogates |
| Repository.HashOfNull | pspdash/data/DataRepository.java:2073-2083 | the hash getID starts from for a prefix with no datafile is that of "null" |
| Repository.DatafileName | pspdash/data/DataRepository.java:2073-2081 | the name hashed is the path of the last opened datafile with the prefix, or "null" when there is none |
| Repository.DatafileNameAt | pspdash/data/DataRepository.java:2074-2080 | the walk from the last datafile stops at a datafile with the prefix and names its path |
| Repository.DatafileNamePasses | pspdash/data/DataRepository.java:2074-2080 | the walk passes over a datafile with another prefix to the ones before it |
| Repository.FindDatafileName | pspdash/data/DataRepository.java:2073-2081 | the backward search finds that name |
| Repository.Tried | pspdash/data/DataRepository.java:2087-2088 | every number probed so far has its decimal form among those tried |
| Repository.NotYetTried | pspdash/data/DataRepository.java:2087-2088 | a number's decimal form differs from those of all numbers below it, so the probe terminates |
| Repository.FirstFreeIDFrom | pspdash/data/DataRepository.java:2087-2088 | the probe returns the first number from the start whose decimal form is not an ID |
| Repository.TriedNames | pspdash/data/DataRepository.java:1841-1855 | every name probed so far is among those tried |
| Repository.NameNotYetTried | pspdash/data/DataRepository.java:1841-1855 | names with different counts differ, so the probe terminates |
| Repository.FirstUnusedNameIn | pspdash/data/DataRepository.java:1841-1855 | the probe returns the first count whose name is unused |
| Repository.DataRepository.constructor | pspdash/data/DataRepository.java:877-885 | a new repository is empty, consistent, with no bracket open |
| Repository.DataRepository.SaveDatafile | pspdash/data/DataRepository.java:1722-1839 | the datafile's dirty count is reset, only its saved lines change, and they are the save of its values |
| Repository.DataRepository.DatafileModified | pspdash/data/DataRepository.java:1701-1707 | the datafile's count goes up by one, or to 0 with a save when it passes MAX_DIRTY; nothing else is saved |
| Repository.DataRepository.Add | pspdash/data/DataRepository.java:1142-1160 | the new element is stored under the name and its addition announced unless notification is off or the name is anonymous |
| Repository.DataRepository.MaybeDelete | pspdash/data/DataRepository.java:1880-1898 | the element is removed exactly when it is discardable |
| Repository.DataRepository.LoadDatafile | pspdash/data/DataRepository.java:1420-1486 | the values read, and the include cache, are those the specification of loading gives |
| Repository.DataRepository.GetValue | pspdash/data/DataRepository.java:1256-1262 | returns the name's value, realizing it in place |
| Repository.DataRepository.GetInheritableValue | pspdash/data/DataRepository.java:1278-1293 | returns the value under the nearest enclosing prefix that has one, changing no value |
| Repository.DataRepository.PutExisting | pspdash/data/DataRepository.java:1302-1329 | the element gets the value, its datafile is marked modified exactly when the save string changed, and it is thrown away if orphaned |
| Repository.DataRepository.PutNew | pspdash/data/DataRepository.java:1330-1337 | a new element goes to the datafile guessDataFile picks, is announced, and that datafile is marked modified |
| Repository.DataRepository.PutValue | pspdash/data/DataRepository.java:1296-1344 | nested MAX_RECURSION_DEPTH deep nothing changes; otherwise an existing or a new element is updated as above, and the depth is restored |
| Repository.DataRepository.RemoveValue | pspdash/data/DataRepository.java:1164-1199 | an unknown name changes nothing; otherwise the removal is announced, the element cleared before its datafile is marked, and thrown away when discardable |
| Repository.DataRepository.RemoveValueAsWritten | pspdash/data/DataRepository.java:1164-1199 | as written, the datafile mark (and any save it triggers) sees the element before it is cleared |
| Repository.DataRepository.GetPath | pspdash/data/DataRepository.java:2096-2098 | returns the prefix an ID stands for, if any |
| Repository.DataRepository.GetID | pspdash/data/DataRepository.java:2062-2094 | a prefix keeps its ID; a new one gets the first free decimal number from the hash of its datafile path, and the two maps stay inverse |
| Repository.DataRepository.RemapIDs | pspdash/data/DataRepository.java:2100-2110 | the old prefix's ID, if any, moves to the new prefix, and getPath then gives the new prefix |
| Repository.DataRepository.MakeUniqueName | pspdash/data/DataRepository.java:1841-1855 | returns the first unused name of base0, base1, … (default base `///Internal_Name`), and creates it with no value unless putValue is nested too deep |
| Repository.DataRepository.AddDataConsistencyObserver | pspdash/data/DataRepository.java:1992-2001 | an observer is called back at once exactly when no bracket is open, otherwise it waits |
| Repository.DataRepository.StartInconsistency | pspdash/data/DataRepository.java:2003-2005 | opens one bracket |
| Repository.DataRepository.FinishInconsistency | pspdash/data/DataRepository.java:2007-2017 | closes one bracket; closing the outermost releases every waiting observer |
| Repository.DataRepository.BracketReleasesObserver | pspdash/data/DataRepository.java:1992-2017 | an observer added inside a bracket is released when that bracket closes |
| Freezer.Freezing | pspdash/data/DataRepository.java:661-664 | a freeze request cancels a pending thaw of the name, or else queues the name for freezing |
| Freezer.Thawing | pspdash/data/DataRepository.java:671-674 | a thaw request cancels a pending freeze of the name, or else queues the name for thawing |
| Freezer.RequestsCancel | pspdash/data/DataRepository.java:661-674 | the queues never hold a name twice, and a freeze then a thaw of an unqueued name (or the reverse) leaves them as they were |
| Freezer.FreezingAllStep | pspdash/data/DataRepository.java:721-731 | freezing a set of names is freezing them one at a time |
| Freezer.ThawingAllStep | pspdash/data/DataRepository.java:733-743 | thawing a set of names is thawing them one at a time |
| Freezer.Pop | pspdash/data/DataRepository.java:536-546 | pop returns nothing exactly for an empty set, otherwise its least element in compareTo order (UTF-16 code units), removed from the set |
| Strings.SupplementaryBelowPrivateUse | pspdash/data/DataRepository.java:536-546 | in that order a character above U+FFFF sorts below U+E000, as its high surrogate does |
| Freezer.FrozenValue | pspdash/data/DataRepository.java:613-633 | the frozen wrapper is frozen, not editable, cannot be frozen again, and keeps the live value |
| Freezer.PutOnExisting | pspdash/data/DataRepository.java:1299-1329 | what putValue leaves for getValue: the stored value when the element survives, nothing when it is thrown away, every other name unchanged |
| Freezer.AfterFlag | pspdash/data/DataRepository.java:759-786 | the state table: a true flag freezes a thawed set and leaves other states alone; a false flag thaws any set |
| Freezer.FreezeRegexpOfParts | pspdash/data/DataRepository.java:688-699 | the flag `p/FreezeFlag/q` governs the name `p/q`: the expression is that name anchored at both ends, in multi-line mode |
| Freezer.FreezeFlagPosExample | pspdash/data/DataRepository.java:693 | the FreezeFlag segment of `/p/FreezeFlag/lock` starts at position 2 |
| Freezer.FreezeRegexpExample | pspdash/data/DataRepository.java:688-699 | the flag `/p/FreezeFlag/lock` governs the name `/p/lock` |
| Freezer.FirstFlagValue | pspdash/data/DataRepository.java:753-757 | walking a batch from its end, the value that sticks is that of the first event naming the flag, and none when no event names it |
| Freezer.FrozenDataSet.constructor | pspdash/data/DataRepository.java:688-705 | a new set is grandfathered and empty; a flag name containing the FreezeFlag segment gets its expression and starts initializing |
| Freezer.FrozenDataSet.Dispose | pspdash/data/DataRepository.java:710-714 | the set forgets its members |
| Freezer.FrozenDataSet.FreezeOne | pspdash/data/DataRepository.java:716-719 | while initializing the name waits in the tentative set, afterwards it goes to the freezer |
| Freezer.FrozenDataSet.FreezeItems | pspdash/data/DataRepository.java:721-731 | every member is frozen that way |
| Freezer.FrozenDataSet.ThawItems | pspdash/data/DataRepository.java:733-743 | every member is handed to the freezer's thaw |
| Freezer.FrozenDataSet.DataValueChanged | pspdash/data/DataRepository.java:747-751 | a change of the flag records its truth value; any other name is ignored |
| Freezer.FrozenDataSet.DataValuesChanged | pspdash/data/DataRepository.java:753-757 | a batch leaves the value of the first event naming the flag, or the old value |
| Freezer.FrozenDataSet.DataIsConsistent | pspdash/data/DataRepository.java:759-797 | the new state follows the state table, members are frozen or thawed as it says, and initializing ends with the tentative names frozen when the set is frozen |
| Freezer.FrozenDataSet.DataAdded | pspdash/data/DataRepository.java:799-851 | freeze flags and non-matching names are ignored, a malformed expression disposes of the set, and otherwise the member is added and frozen as the state table for new members says |
| Freezer.FrozenDataSet.DataRemoved | pspdash/data/DataRepository.java:853-855 | the name stops being a member |
| Freezer.DataFreezer.constructor | pspdash/data/DataRepository.java:493-498 | a new freezer has empty queues and no sets |
| Freezer.DataFreezer.Freeze | pspdash/data/DataRepository.java:661-664 | the queues become those of Freezing, and stay disjoint |
| Freezer.DataFreezer.Thaw | pspdash/data/DataRepository.java:671-674 | the queues become those of Thawing, and stay disjoint |
| Freezer.DataFreezer.DataAdded | pspdash/data/DataRepository.java:564-569 | a freeze flag without a set gets a new grandfathered set; nothing else changes |
| Freezer.DataFreezer.DataRemoved | pspdash/data/DataRepository.java:571-577 | the set of a removed freeze flag is dropped and forgets its members |
| Freezer.DataFreezer.PerformFreeze | pspdash/data/DataRepository.java:584-636 | a freezable value is replaced through putValue by its frozen wrapper, the name then reading as FreezeOutcome of the repository before; a missing, already frozen or non-basic value, or a too-deep putValue, changes nothing; every other element and every datafile's prefix and parent stay as they were |
| Freezer.DataFreezer.PerformThaw | pspdash/data/DataRepository.java:639-654 | a frozen value, taken without realizing, is replaced through putValue by its live value, the name then reading as ThawOutcome of the repository before; otherwise nothing changes; every other element stays as it was |
| Freezer.FreezeOutcomeOfSame | pspdash/data/DataRepository.java:584-636 | what performFreeze does to a name depends only on that name's element and the prefixes and parents of the datafiles |
| Freezer.DataFreezer.FreezeAll | pspdash/data/DataRepository.java:519-523 | every waiting name is frozen, least first, and ends reading as performFreeze would leave it on the repository as it was before the loop; the queue ends empty, and every other element stays as it was |
| Freezer.DataFreezer.ThawAll | pspdash/data/DataRepository.java:526-530 | every waiting name is thawed, least first, and ends reading as performThaw would leave it on the repository as it was before the loop; the queue ends empty, and no other name changes |
| Freezer.FreezeProgressStep | pspdash/data/DataRepository.java:519-523 | freezing one more queued name keeps every name done reading as performFreeze left it on the starting repository, and every other element unchanged |
| Freezer.ThawProgressStep | pspdash/data/DataRepository.java:526-530 | thawing one more queued name keeps every name done reading as performThaw left it on the starting repository, and every other element unchanged |
| Freezer.DataFreezer.DataIsConsistent | pspdash/data/DataRepository.java:512-516 | all waiting work is done, the freezing first: a name waiting only to be frozen reads as performFreeze leaves it, one waiting only to be thawed as performThaw leaves it, both on the repository as it was before, and unqueued names do not change |
| Freezer.DataFreezer.FreezeThenThaw | pspdash/data/DataRepository.java:584-654 | freezing a surviving element and then thawing it gives every name back the value it had |
| UserGroups.DataNamesDiffer | src/net/sourceforge/processdash/team/group/UserGroupManager.java:253-256 | the data element name `User_Group/` + ID + suffix determines the ID and the suffix |
| UserGroups.OwnNamesDiffer | src/net/sourceforge/processdash/team/group/UserGroupManager.java:218-228 | a group's name element and dataset-IDs element are different elements |
| UserGroups.DistinctGroupNames | src/net/sourceforge/processdash/team/group/UserGroupManager.java:253-256 | the data elements of different groups never share a name |
| UserGroups.DatasetIDsValue | src/net/sourceforge/processdash/team/group/UserGroupManager.java:221-227 | the dataset IDs list is never empty: a group with none stores the `*empty*` marker, otherwise its IDs |
| UserGroups.Put | src/net/sourceforge/processdash/team/group/UserGroupManager.java:258-265 | putValue stores the value under the name, a null value leaving none, and no other name changes |
| UserGroups.GenerateUniqueID | src/net/sourceforge/processdash/team/group/UserGroupManager.java:197-208 | a custom group's ID starts with the custom prefix `c.` |
| UserGroups.Base36 | src/net/sourceforge/processdash/team/group/UserGroupManager.java:203-205 | the base-36 form has at least one digit, and a number below 36 is its single digit |
| UserGroups.SharedIDMayLookCustom | src/net/sourceforge/processdash/team/group/UserGroupManager.java:197-208 | a shared group whose random number is 12 gets an ID starting with `c.` |
| UserGroups.ReadGroups | src/net/sourceforge/processdash/team/group/UserGroupManager.java:352-370 | the groups kept are exactly those whose ID has the prefix of the requested kind, filed under their IDs and marked with that kind |
| UserGroups.ReadFile | src/net/sourceforge/processdash/team/group/UserGroupManager.java:360-369 | readFile's loop yields those groups |
| UserGroups.Reconciled | src/net/sourceforge/processdash/team/group/UserGroupManager.java:319-350 | after a reload the groups of the file's kind it no longer holds are gone, the groups of the other kind stay, and every group read is in |
| UserGroups.SavedValues | src/net/sourceforge/processdash/team/group/UserGroupManager.java:210-228 | after groupWasSaved the group's two elements mirror it and no other name changes |
| UserGroups.SavedPins | src/net/sourceforge/processdash/team/group/UserGroupManager.java:258-265 | only names that held nothing before get pinned |
| UserGroups.DeletedValues | src/net/sourceforge/processdash/team/group/UserGroupManager.java:244-251 | after groupWasDeleted the group's two elements hold nothing and no other name changes |
| UserGroups.Announced | src/net/sourceforge/processdash/team/group/UserGroupManager.java:158-168 | one event is fired per group |
| UserGroups.DeletionsClear | src/net/sourceforge/processdash/team/group/UserGroupManager.java:333-343 | after the deletions of a reload each deleted group's elements hold nothing and every other name keeps its value |
| UserGroups.SavesMirror | src/net/sourceforge/processdash/team/group/UserGroupManager.java:345-350 | after the saves of a reload each saved group's elements mirror it and every other name keeps its value |
| UserGroups.SavesKeepCleared | src/net/sourceforge/processdash/team/group/UserGroupManager.java:333-350 | saving other groups leaves a dropped group's elements empty |
| UserGroups.ReloadedData | src/net/sourceforge/processdash/team/group/UserGroupManager.java:319-350 | whatever order reloadGroups' loops take, dropped groups' elements hold nothing, changed groups' elements mirror them, and all other names keep their values |
| UserGroups.ReloadIntoOtherKind | src/net/sourceforge/processdash/team/group/UserGroupManager.java:132-135 | reloading one kind into a map holding only groups of the other kind keeps those groups mirrored, mirrors every group read, and leaves every other data element as it was |
| UserGroups.IterationOrder | src/net/sourceforge/processdash/team/group/UserGroupManager.java:281-288 | the pending kinds are walked once each, the shared file before the custom one |
| UserGroups.UserGroupManager.constructor | src/net/sourceforge/processdash/team/group/UserGroupManager.java:96-100 | a new manager has no groups, no save bookkeeping and a read-only code exactly in read-only mode |
| UserGroups.UserGroupManager.Init | src/net/sourceforge/processdash/team/group/UserGroupManager.java:102-137 | a personal dashboard has no groups and allows no changes; a team dashboard holds exactly the groups of both files, each as read and of its kind, mirrors every one of them in its data elements, leaves every other data element as it was, and has nothing to save |
| UserGroups.UserGroupManager.SaveDataElement | src/net/sourceforge/processdash/team/group/UserGroupManager.java:258-275 | the value is put only when it differs from the stored one, and a name that held nothing is pinned |
| UserGroups.UserGroupManager.GroupWasSaved | src/net/sourceforge/processdash/team/group/UserGroupManager.java:210-228 | the group's elements mirror it and the listeners hear of the save |
| UserGroups.UserGroupManager.GroupWasDeleted | src/net/sourceforge/processdash/team/group/UserGroupManager.java:244-251 | the group's elements are emptied and the listeners hear of the deletion |
| UserGroups.UserGroupManager.GroupsOfKind | src/net/sourceforge/processdash/team/group/UserGroupManager.java:387-393 | the groups written are exactly those of the file's kind |
| UserGroups.UserGroupManager.SaveFile | src/net/sourceforge/processdash/team/group/UserGroupManager.java:372-410 | the kind stays noted as needing a save exactly when the write fails, and a successful write holds the groups of that kind |
| UserGroups.UserGroupManager.ModificationError | src/net/sourceforge/processdash/team/group/UserGroupManager.java:292-312 | a change is refused in a personal dashboard, for an ID that disagrees with the kind or is that of everyone, and for a shared group in read-only mode, in that order |
| UserGroups.UserGroupManager.PrepareForModification | src/net/sourceforge/processdash/team/group/UserGroupManager.java:292-317 | gives exactly that refusal; an accepted change of a custom group first reconciles the map with the custom file, and in every other case nothing changes |
| UserGroups.UserGroupManager.SaveGroup | src/net/sourceforge/processdash/team/group/UserGroupManager.java:180-195 | a refused group changes nothing; an accepted one gets an ID if new and is filed under it in the map as prepareForModification left it, every other group staying; its kind is noted as needing a save exactly when the write fails, a successful write holds the groups of its kind, its elements mirror it and it is announced last |
| UserGroups.UserGroupManager.StoreGroup | src/net/sourceforge/processdash/team/group/UserGroupManager.java:187-194 | the group is filed with every other group staying, its file written (the kind pending exactly when the write fails), its elements mirror it and it is announced |
| UserGroups.UserGroupManager.DeleteGroup | src/net/sourceforge/processdash/team/group/UserGroupManager.java:230-242 | a refused group changes nothing; for an accepted one that is in the map as prepareForModification left it, exactly that group is removed, its kind is pending exactly when the write fails, a successful write holds the groups of its kind, its elements are emptied and the deletion is announced last; an accepted group not in that map leaves the map as prepared and writes nothing |
| UserGroups.UserGroupManager.ReloadGroups | src/net/sourceforge/processdash/team/group/UserGroupManager.java:319-350 | without the file nothing changes; otherwise the map is reconciled with the file, dropped groups are announced as deleted and changed ones as saved |
| UserGroups.UserGroupManager.DropMissing | src/net/sourceforge/processdash/team/group/UserGroupManager.java:327-338 | every group of the kind the file no longer holds is removed, emptied and announced |
| UserGroups.UserGroupManager.DropOne | src/net/sourceforge/processdash/team/group/UserGroupManager.java:333-337 | one such group is removed, emptied and announced |
| UserGroups.UserGroupManager.PutOne | src/net/sourceforge/processdash/team/group/UserGroupManager.java:341-345 | one group read is put, and announced when it differs from the one it replaces |
| UserGroups.UserGroupManager.SaveNext | src/net/sourceforge/processdash/team/group/UserGroupManager.java:210-216 | one more group saved in sequence |
| UserGroups.UserGroupManager.PutRead | src/net/sourceforge/processdash/team/group/UserGroupManager.java:340-346 | every group read is put in the map, and those that changed are mirrored and announced |
| UserGroups.UserGroupManager.SaveAllAsWritten | src/net/sourceforge/processdash/team/group/UserGroupManager.java:277-290 | as written, with both kinds pending and the shared write succeeding, the walk fails; otherwise every pending kind is attempted |
| UserGroups.UserGroupManager.SaveAll | src/net/sourceforge/processdash/team/group/UserGroupManager.java:277-290 | every pending kind is written, and the result is true exactly when every pending write succeeded |
| WorkflowFilter.JsTrimStart | Templates/reports/workflowToDateFilter.js:27-30 | the leading white space, and only it, is cut off |
| WorkflowFilter.JsTrimEnd | Templates/reports/workflowToDateFilter.js:27-30 | the trailing white space, and only it, is cut off |
| WorkflowFilter.JsTrim | Templates/reports/workflowToDateFilter.js:27-30 | the trimmed text neither starts nor ends with white space and adds no character |
| WorkflowFilter.JsTrimEmptyIffBlank | Templates/reports/workflowToDateFilter.js:252-258 | a field trims to the empty string exactly when it is all white space, which is when it counts as not entered |
| WorkflowFilter.JsTrimIdempotent | Templates/reports/workflowToDateFilter.js:27-30 | trimming twice is trimming once |
| WorkflowFilter.ToLower | Templates/reports/workflowToDateFilter.js:262-268 | lower-casing keeps the length and lower-cases every character |
| WorkflowFilter.ToLowerIdempotent | Templates/reports/workflowToDateFilter.js:262-268 | lower-casing twice is lower-casing once |
| WorkflowFilter.SplitOnComma | Templates/reports/workflowToDateFilter.js:262-263 | splitting gives at least one piece, no piece holds a comma, and joining the pieces with commas gives the text back |
| WorkflowFilter.SplitOfJoin | Templates/reports/workflowToDateFilter.js:262-263 | splitting comma-joined comma-free pieces gives the pieces back |
| WorkflowFilter.TrimAll | Templates/reports/workflowToDateFilter.js:262-263 | the white space around each comma is dropped with the piece it borders |
| WorkflowFilter.Terms | Templates/reports/workflowToDateFilter.js:262-263 | the terms of a field are at least one, comma-free, lower case and trimmed |
| WorkflowFilter.MatchesSomeIff | Templates/reports/workflowToDateFilter.js:270-280 | a text matches the terms exactly when it contains some non-empty term |
| WorkflowFilter.FirstMatch | Templates/reports/workflowToDateFilter.js:243-245 | a cell's hidden values match exactly when one of them is among the selected values |
| WorkflowFilter.MatchNames | Templates/reports/workflowToDateFilter.js:250-283 | the names filter switches itself off exactly when both fields are blank |
| WorkflowFilter.MatchDates | Templates/reports/workflowToDateFilter.js:285-307 | the dates filter switches itself off exactly when both bounds are blank, and otherwise keeps the trimmed bounds |
| WorkflowFilter.MatchNumbers | Templates/reports/workflowToDateFilter.js:309-334 | the numbers filter switches itself off exactly when both bounds are blank, and otherwise keeps the trimmed bounds |
| WorkflowFilter.RadioValue | Templates/reports/workflowToDateFilter.js:344-350 | the value is that of a checked radio button, and there is none exactly when none is checked |
| WorkflowFilter.CheckedValues | Templates/reports/workflowToDateFilter.js:235-238 | the values gathered are exactly those of the checked boxes |
| WorkflowFilter.MatchSelectedValues | Templates/reports/workflowToDateFilter.js:230-248 | the selection filter never switches off, excludes unless `include` is chosen, and holds exactly the checked values |
| WorkflowFilter.SelectedFilterMeaning | Templates/reports/workflowToDateFilter.js:242-247 | with `include` a cell passes exactly when one of its values is selected, otherwise exactly when none is |
| WorkflowFilter.ExcludedTermRejects | Templates/reports/workflowToDateFilter.js:269-274 | a name containing an exclude term is rejected |
| WorkflowFilter.IncludeBlankMeaning | Templates/reports/workflowToDateFilter.js:267-276 | with no include terms a name passes exactly when it contains no exclude term |
| WorkflowFilter.IncludeGivenMeaning | Templates/reports/workflowToDateFilter.js:267-282 | with include terms a name passes exactly when it contains no exclude term and some include term |
| WorkflowFilter.IncludeOnlyMeaning | Templates/reports/workflowToDateFilter.js:267-282 | with only include terms a name passes exactly when it contains one of them |
| WorkflowFilter.BlankTerms | Templates/reports/workflowToDateFilter.js:262-263 | a blank field gives the one empty term |
| WorkflowFilter.CommasOnlyRejectAll | Templates/reports/workflowToDateFilter.js:277-281 | include terms that are all empty (a field of commas) reject every name |
| WorkflowFilter.NamesCaseInsensitive | Templates/reports/workflowToDateFilter.js:268 | the names filter ignores the case of the cell text |
| WorkflowFilter.DatesAcceptIffBetween | Templates/reports/workflowToDateFilter.js:299-306 | a date passes exactly when it is before the before bound and after the after bound, where given |
| WorkflowFilter.LessAsymmetric | Templates/reports/workflowToDateFilter.js:301-303 | string order is asymmetric |
| WorkflowFilter.CrossedDatesRejectAll | Templates/reports/workflowToDateFilter.js:299-306 | bounds that do not leave a gap reject every date |
| WorkflowFilter.NamesTest | Templates/reports/workflowToDateFilter.js:267-282 | the names loops accept exactly what the names filter's meaning accepts |
| WorkflowFilter.Test | Templates/reports/workflowToDateFilter.js:220-247 | calling an evaluator on a cell gives exactly its meaning |
| WorkflowFilter.Generate | Templates/reports/workflowToDateFilter.js:86-90 | the dates and outlier evaluators come only from their columns, and the selection and outlier ones never switch off |
| WorkflowFilter.FilterOff | Templates/reports/workflowToDateFilter.js:139-143 | the panel is closed, disabled and its enabled input cleared, nothing else changes |
| WorkflowFilter.FilterOn | Templates/reports/workflowToDateFilter.js:127-131 | the panel is closed, enabled and its enabled input set, nothing else changes |
| WorkflowFilter.PanelIndex | Templates/reports/workflowToDateFilter.js:193-195 | $(id) finds the first panel with that element id, and none exactly when no panel has it |
| WorkflowFilter.Closed | Templates/reports/workflowToDateFilter.js:109-113 | every panel is closed and nothing else changes |
| WorkflowFilter.Clicked | Templates/reports/workflowToDateFilter.js:100-107 | only the clicked panel can be open afterwards, and it is open exactly when it was closed |
| WorkflowFilter.ClickTwiceCloses | Templates/reports/workflowToDateFilter.js:100-107 | clicking a closed panel twice closes every panel |
| WorkflowFilter.ClickOpensAtMostOne | Templates/reports/workflowToDateFilter.js:100-107 | a click leaves at most one panel open |
| WorkflowFilter.BuildFilters | Templates/reports/workflowToDateFilter.js:189-207 | building the evaluators changes no panel's identity |
| WorkflowFilter.BuildFiltersOutside | Templates/reports/workflowToDateFilter.js:189-207 | an id that is not a filter ID keeps its entry |
| WorkflowFilter.BuildFiltersEntry | Templates/reports/workflowToDateFilter.js:191-205 | a filter without a panel keeps its entry; one with a panel gets its generated evaluator when enabled and the pass-all evaluator otherwise |
| WorkflowFilter.BuildFiltersKinds | Templates/reports/workflowToDateFilter.js:189-207 | every evaluator built is of its column's kind, and only filter IDs get entries |
| WorkflowFilter.MarkRowsVerdict | Templates/reports/workflowToDateFilter.js:214-225 | a cell is marked excluded exactly when its filter rejects it |
| WorkflowFilter.MarkRowsUnvisited | Templates/reports/workflowToDateFilter.js:217-218 | cells that are no filter cell of any row keep their mark |
| WorkflowFilter.PassAllNeverRejects | Templates/reports/workflowToDateFilter.js:203 | a row under pass-all evaluators only is never excluded |
| WorkflowFilter.FirstUnreadable | Templates/reports/workflowToDateFilter.js:216-224 | the first filter of a row whose cell lacks the hidden value or check box it reads, every earlier one readable |
| WorkflowFilter.FirstBadRow | Templates/reports/workflowToDateFilter.js:210-226 | the first row holding such a cell, every earlier row free of one |
| WorkflowFilter.BadRowIffUnreadable | Templates/reports/workflowToDateFilter.js:209-228 | the pass throws exactly when some filter meets a cell it cannot read |
| WorkflowFilter.AbortingPrefix | Templates/reports/workflowToDateFilter.js:209-228 | the marks the pass leaves are those of the full evaluation of the rows before the throw, then of the throwing row's cells before the throwing filter, and the full evaluation when nothing throws |
| WorkflowFilter.EvaluateRow | Templates/reports/workflowToDateFilter.js:211-226 | up to the first filter that throws (reported), the row is excluded exactly when a filter rejects one of its cells, and the cell marks are those verdicts |
| WorkflowFilter.BuiltFiltersReadable | Templates/reports/workflowToDateFilter.js:189-207 | every evaluator built can read the cells of its column |
| WorkflowFilter.FilterPage.constructor | Templates/reports/workflowToDateFilter.js:38-84 | a page starts with its filter IDs, panels and rows and no exclusions |
| WorkflowFilter.FilterPage.CloseFilters | Templates/reports/workflowToDateFilter.js:109-113 | closes every panel |
| WorkflowFilter.FilterPage.FilterClick | Templates/reports/workflowToDateFilter.js:100-107 | the panels become those after the click |
| WorkflowFilter.FilterPage.FilterOnTd | Templates/reports/workflowToDateFilter.js:127-131 | switches the panel on |
| WorkflowFilter.FilterPage.FilterOffTd | Templates/reports/workflowToDateFilter.js:139-143 | switches the panel off |
| WorkflowFilter.FilterPage.CreateFilterEvaluators | Templates/reports/workflowToDateFilter.js:189-207 | the evaluators and panels are those BuildFilters gives |
| WorkflowFilter.FilterPage.EvaluateFilters | Templates/reports/workflowToDateFilter.js:209-228 | the pass fails exactly when a filter meets a cell it cannot read; rows before the failing one are excluded exactly when a filter rejects one of their cells, the failing row by the filters before the throw, later rows keep their marks; the cell marks are those of the aborted pass, and when nothing fails every row and cell carries its verdict |
| WorkflowFilter.FilterPage.ApplyFilters | Templates/reports/workflowToDateFilter.js:184-187 | the panels as the rebuilt evaluators leave them, and the rows and cell marks as evaluateFilters leaves them with those evaluators, including the abort; with readable date and outlier cells nothing fails, each row is excluded exactly when a built filter rejects one of its cells and each cell is marked with its verdict |
| WorkflowFilter.FilterPage.CheckOutliers | Templates/reports/workflowToDateFilter.js:174-182 | the outlier panel switched on exactly when some outlier check box is checked and off otherwise, then the filters applied; without an outlier panel the switch throws and nothing changes |
| WorkflowFilter.FilterPage.FindCheckedOutlier | Templates/reports/workflowToDateFilter.js:175-178 | whether some outlier check box is checked |

## Left out

- Threads are not modelled. This covers the DataRealizer, DataNotifier, DataSaver and ConsistencyNotifier threads, the DataFreezer's own thread, sleep and interrupt. Each callback is a step run to completion. Realizing a deferred value happens when the value is read. Observers released by finishInconsistency are returned to the caller rather than called on a new thread.
- Data listeners are not modelled, nor are repository listeners. addDataListener, removeDataListener, addRepositoryListener and deleteDataListener are left out. An element records only whether it never had listeners, has them, or has lost them all, because maybeDelete depends on that. DataEvent dispatch is a list of announced events.
- File, stream and XML I/O are not modelled. A datafile is its sequence of lines, and a save is the list of lines written. Group files are the list of groups they hold. Whether a group file write succeeds is an input. findDatafile, temporary files, the RepositoryServer and XML parsing and serialization are left out.
- Repository.DataRepository.LoadDatafile: an include cycle is reported as an error, IncludeCycle. The Java code has no such check and would recurse until the stack overflows.
- The value classes are outside the model: ValueFactory, SaveableData, SimpleData, FrozenDouble, FrozenDate and FrozenString. A value is its form, save string and editable flag. The text of a frozen wrapper is the parameter `wrapText`, and thawing returns the live value the wrapper was made from.
- Regular expressions and Perl substitution are parameters of the model. This covers pattern renames and freeze-flag member expressions, and GlobPattern matching too.
- Repository.DataRepository.SaveDatafile: a save always opens its output. When the temporary files cannot be opened, the source gives up before resetting the dirty count (DataRepository.java:1736-1744). The model always resets the count and records the lines written.
- SubprojectLists.ValidatePath: a listed subproject without a path makes the source's `proj.path.equals(path)` throw a NullPointerException (EditSubprojectList.java:401). The model treats that subproject as not matching.
- WBSModels.WBSModel.DeleteNodes: requires that some node remains. Deleting every node makes recalcRows fail on the empty list, and the model does not represent that failure.
- Repository.DataRepository.GetID: `++IDNum` is unbounded. The probe never wraps past Integer.MAX_VALUE, which would need about 2^32 taken IDs.
- Closing datafiles is not part of this model, so the datafile list only grows. Deleting a prefix's data when its file closes is left out as well.
- Floating point is not modelled: WBSNode.getNumericAttribute and setNumericAttribute, and JavaScript parseNum and parseFloat. WorkflowFilter's number filter takes the comparison of a cell with its bounds as the parameter `inRange`.
- WorkflowFilter: init's handler wiring is not modelled, nor are the handlers documentClick, filterKey, clearField and findFilterTd. These only route events to operations the model covers or edit one text field. The outlier filter reads the first check box of a cell, which the model holds among the cell's check-box states. The "outlierVal" boxes checkOutliers looks for are taken to be the check boxes of the outlier column's cells.
- WorkflowFilter.ToLower lower-cases ASCII letters only; JavaScript's Unicode case mapping is not modelled.
- UserGroups: the permission check is left out (DashboardPermission). The random number and the clock of generateUniqueID are parameters.
- UserGroups.GenerateUniqueID: states only that a custom ID starts with the custom prefix. The source promises no uniqueness beyond what the random number and the clock give. The random number is a `nat`, so the case where `Math.abs(nextInt())` stays negative (Integer.MIN_VALUE) and the ID starts with "-" is not modelled.
- UserGroups: UserGroup.equals is taken as structural equality. The sort order of groups written to a file is not modelled; the written content is the set of groups of that kind. getAllKnownPeople and the database query are left out.
- WBSModels: insertWorkflow, mergeWBSModel, getNodeMap, the snapshot and expansion-state copies, and the cached attributes (CACHED_*) are not modelled. calcInsertWorkflow, addWorkflowSourceID and appendWorkflowNode, which insertWorkflow is built from, are modelled. The random root ID of a new model is a parameter.
- WBSModels: table events are not modelled. fireSimpleRowChangeEvent is modelled as its diff computation only.
- discardTransientAttributes is called by makeNodeIDUnique but is not part of this model: it is not defined in the WBSNode.java the model follows. Also left out are WBSNode's XML constructor, WBSModel's loadXML, and WBSNode getters and setters that only read or write one field.
- DataTables: the recalculation janitor timer and the table-changed events are left out. A column's recalculate() is recorded as an entry of the list `recalculated`. What it computes, and whether it reports a change, are not modelled.
- SubprojectLists: recomputing the dependent schedule and settings and the HTML pages are left out. Repository access is the two slot maps.
- Defect: parseDate and saveDate are parameters.
- IzPackResources: the platform line separator is a parameter, and files are byte sequences.
- Termination: no operation needs a fuel bound. Recursion over includes is bounded by the set of files being included.
- DatafileRenames.ApplyRenames: states that each new name's value is the data value of some name its chain of operations reaches, possibly its own, not which one. When a chain meets a name holding a value, which value it takes depends on the Hashtable's key order, which the model leaves open.
- Freezer.DataFreezer.DataIsConsistent: for a name waiting both to be frozen and to be thawed, the contract states no value; `Freeze` and `Thaw` each cancel the opposite request, so the queues they build never hold such a name.

## Findings

| source | as written | input that shows it | evidently intended | confidence | as-written member | corrected member |
|---|---|---|---|---|---|---|
| teamdash/src/teamdash/wbs/WBSModel.java:699-717 | `if (beforeRow == 0) beforePos = 1;` is overwritten by the if/else that follows, so row 0 maps to position `rows[0]`, which is 0 | `insertNodes(nodes, 0, …)` on any model | insert just after the root, as the comment says ("illegal to insert anything before the root node") | high (not executed) | WBSModels.InsertAsWrittenBeforeRoot | WBSModels.WBSModel.InsertNodes |
| teamdash/src/teamdash/wbs/WBSModel.java:938-949 | addWorkflowSourceID casts the attribute to String, but appendWorkflowNode (986-991) stores an Integer there | applying a workflow to a node that was itself inserted from a workflow | extend the comma-separated list, reading the attribute as text | high (not executed) | WBSModels.SourceIDsAfterWorkflowInsert | WBSModels.WBSModel.AddWorkflowSourceID |
| teamdash/src/teamdash/templates/setup/EditSubprojectList.java:297-319 | the short name is validated untrimmed but stored trimmed | adding "A " while a subproject "A" exists | refuse a name that is taken once trimmed | medium (not executed) | SubprojectLists.SubprojectList.DoAddAsWritten | SubprojectLists.SubprojectList.DoAdd |
| src/net/sourceforge/processdash/team/group/UserGroupManager.java:277-290 | saveAll iterates needsSave while saveFile removes the kind it wrote from that set | both kinds pending and the shared file written successfully: the next step of the iteration throws ConcurrentModificationException | write every pending file and report whether all succeeded | high (not executed) | UserGroups.UserGroupManager.SaveAllAsWritten | UserGroups.UserGroupManager.SaveAll |
| pspdash/data/DataRepository.java:1164-1199 | removeValue marks the datafile modified before clearing the element | an element whose datafile has dirty count MAX_DIRTY (10) and whose value differs from its default: the save that mark triggers writes the removed value and leaves the file clean | the removed value does not reach the saved file | medium (not executed) | Repository.RemovalSavedAsWritten | Repository.RemovalNotSaved |
