# CODESYS symbol resolver and alarm classifier, modelled in Dafny

This project models the two stages of the CODESYS symbol tool.

**1. The symbol parser** (`src/codesys_symbols_parser.py`) turns an already-parsed symbol-configuration document into a flat, ordered list of symbols:
- it builds a registry of the `Userdef` types, dropping members marked `hmi_ignore`;
- it expands every declaration through that registry.

**2. The alarm classifier** (`src/alarms_extractor.py`) groups the alarm symbols by station:
- it tries three fixed patterns, in order, on every symbol path;
- the first pattern that matches gives the alarm's offset and its station;
- each station's list is then sorted by alarm offset.

Modules, one per concern:

| file | module | what it holds |
|---|---|---|
| `wrappers.dfy` | `Wrappers` | `Option`, `Result` and the `Concat` of two results, with its monoid laws. |
| `strings.dfy` | `Strings` | `str.strip`, `str.split`, `str.replace` and `str.startswith` as functions on `seq<char>`. |
| `symbol_document.dfy` | `SymbolDocument` | The parsed document as datatypes, plus `parse_comment`, `parse_attribute` and the `hmi_ignore` test. |
| `type_registry.dfy` | `TypeRegistry` | `_extract_usertype_defs`: a loop method `ExtractUserTypeDefs` and its reference function `RegistryOf`. |
| `path_resolver.dfy` | `PathResolver` | `_get_type_element_paths`, `_get_node_paths` and `get_symbols` as recursive functions, with lemmas on them. |
| `symbol_parser.dfy` | `SymbolParser` | The class `CodesysSymbolParser`, whose state is the parsed root and the registry. |
| `alarm_patterns.dfy` | `AlarmPatterns` | A matcher for `Application\.S(\d+)<suffix>` with `re.search` semantics. |
| `alarms_extractor.dfy` | `AlarmsExtractor` | The rules, `get_alarm_list` as loop methods, and the station lists as reference functions. |
| `alarm_sort.dfy` | `AlarmSort` | The per-station sort of `write_alarms`: an in-place insertion sort on an `array`, specified by a stable sort function. |

**Type cycles.** The source has no guard against a type that contains itself; it would recurse until the interpreter raises `RecursionError`. The model threads the set of type names on the current expansion chain. Meeting one of them again gives `Err(CycleError(..))`. `TypeExpansionTotal`, `NodePathsTotal` and `ChildrenPathsTotal` show that this guard never fires on an acyclic registry.

**Byte offsets.** A member's `byteoffset` is carried as an `Option<nat>` from the member to the symbols it produces. The alarm classifier needs it only for symbols that match a rule; `Classifiable` makes that a precondition.

Three places where the model does something other than the source:
- **Alarm records.** `src/alarms_extractor.py:28` writes `alarm_offset` into the shared symbol dictionary itself. The model returns `Alarm(symbol, alarmOffset)` values instead; `AlarmsComeFromMatches` shows that the symbol inside each one is an input symbol, unchanged.
- **Byte offsets.** The source reads `byteoffset` as a string (`src/codesys_symbols_parser.py:62`), and the dictionaries the parser emits hold only `name` and `comment` (`src/codesys_symbols_parser.py:113-116` and `143-146`). So `symbol['byteoffset']` at `src/alarms_extractor.py:28` raises `KeyError` on the parser's own output. The model carries the member's offset as an `Option<nat>` on every symbol and requires it for the symbols that match a rule.
- **Type cycles**, as described above: `CycleError` where the source raises `RecursionError`.

Missing attributes are not errors in the source, and they are not errors in the model either. `get` gives `None` for a missing `name`, `type` or `iecname` (`src/codesys_symbols_parser.py:46, 60-61, 130-131`). The model keeps all of them as `Option<string>`. `Show` prints a missing one as `None` in a path, as the f-strings at lines 109 and 132 do. A missing type is looked up as the key `None`, as at lines 112 and 139, and that key is the one a nameless `Userdef` definition is registered under.

## Model

| member | source | states |
|---|---|---|
| Strings.Find | src/codesys_symbols_parser.py:7 | The position `find` reports is an occurrence of the pattern, and no earlier position is one. `None` means no occurrence. |
| Strings.FindFrom | src/codesys_symbols_parser.py:7 | From a given start: the reported position is an occurrence at or after the start, it is the leftmost one, and `None` means there is none. |
| Strings.Strip | src/codesys_symbols_parser.py:7 | `strip()` returns the slice of the text between the leading and the trailing whitespace. What it drops on either side is all whitespace, and it neither starts nor ends with whitespace. |
| Strings.Split | src/codesys_symbols_parser.py:13 | `split(':=')` has at least one part. The first part is a prefix free of the separator, and the separator, if any, follows it. |
| Strings.JoinSplit | src/codesys_symbols_parser.py:13 | Joining the parts of `split(sep)` with `sep` gives back the text. |
| Strings.SplitPartsAreSeparatorFree | src/codesys_symbols_parser.py:13 | No part of `split(sep)` contains the separator. |
| Strings.ReplaceIsJoinOfSplit | src/codesys_symbols_parser.py:7 | `replace(pat, rep)` equals the parts of `split(pat)` joined with `rep`. |
| Strings.Replace | src/codesys_symbols_parser.py:7 | Defined as Python's `replace`: cut at the leftmost occurrence, put `rep` in its place, then continue after it. `ReplaceIsJoinOfSplit` characterises it. |
| Strings.Join | src/codesys_symbols_parser.py:7 | Defined as Python's `sep.join`: the parts with `sep` between neighbours. `JoinSplit` and `ReplaceIsJoinOfSplit` characterise it. |
| SymbolDocument.ParseAttribute | src/codesys_symbols_parser.py:10-13 | A missing attribute gives `None`. Otherwise the result has at least one part, the parts joined with `:=` give back the text, and no part contains `:=`. Together these leave the split as the only possible result. |
| SymbolDocument.ParseComment | src/codesys_symbols_parser.py:4-7 | Defined as `parse_comment`: `''` for a missing comment, otherwise strip and then replace. `ParseCommentMeaning` and `StripBeforeReplace` state what it returns. |
| SymbolDocument.ParseCommentMeaning | src/codesys_symbols_parser.py:4-7 | A missing comment gives `''`. Otherwise the result is the stripped text with its `\n` escapes turned into line breaks, and no `\n` escape is left. |
| SymbolDocument.NoEscapedNewlineAfterReplace | src/codesys_symbols_parser.py:7 | Replacing every `\n` escape by a line break leaves no escape behind. |
| SymbolDocument.StripBeforeReplace | src/codesys_symbols_parser.py:7 | Trimming happens before replacement: `" Pump fault\n "` (with an escaped newline) becomes `"Pump fault"` followed by a real line break. |
| SymbolDocument.IgnoredIff | src/codesys_symbols_parser.py:52-57 | A member is ignored exactly when its attribute is `hmi_ignore` alone or starts with `hmi_ignore:=`. |
| TypeRegistry.ElementInfos | src/codesys_symbols_parser.py:48-72 | The reference definition of the member loop: the records of the non-ignored members, in document order. `ElementInfosAreKept` and `ElementInfosAppend` characterise it. |
| TypeRegistry.RegistryOf | src/codesys_symbols_parser.py:43-74 | The reference definition of the registry: the `Userdef` definitions in document order, each replacing any earlier one of its name. `RegistryKeys`, `RegistryLastWins` and `RegisteredMembersAreKept` characterise it. |
| TypeRegistry.ExtractUserTypeDefs | src/codesys_symbols_parser.py:37-74 | The nested loops, with their `continue` on ignored members, build exactly the registry `RegistryOf` of the definitions. |
| TypeRegistry.ElementInfosAreKept | src/codesys_symbols_parser.py:48-72 | A type's member list holds exactly the records of its members that are not ignored. |
| TypeRegistry.ElementInfosAppend | src/codesys_symbols_parser.py:48-72 | Member records keep document order: the records of `a + b` are those of `a` followed by those of `b`. |
| TypeRegistry.RegistryKeys | src/codesys_symbols_parser.py:45-46 | A name is a key of the registry exactly when some `Userdef` definition carries it; other type classes are filtered out. |
| TypeRegistry.RegistryLastWins | src/codesys_symbols_parser.py:73 | When a `Userdef` definition is the last with its name, the registry gives that name exactly that definition's kept members. |
| TypeRegistry.RegisteredMembersAreKept | src/codesys_symbols_parser.py:55-73 | Every registered member is the record of a non-ignored member of a `Userdef` definition of that name, so an `hmi_ignore` member never reaches the registry. |
| PathResolver.TypeElementPaths | src/codesys_symbols_parser.py:98-119 | `_get_type_element_paths`, with the cycle guard. What it emits is characterised by `TypeExpansionExact` (exactly the member-chain leaves), `ElementsPathsAppend` (order) and `TypeExpansionTotal` (no error on an acyclic registry). |
| PathResolver.ElementsPaths | src/codesys_symbols_parser.py:108-118 | The member loop of `_get_type_element_paths`: a leaf for each member of unregistered type, the recursive expansion for the others. `ElementsExpansionSound` and `ElementsExpansionComplete` characterise it. |
| PathResolver.TypeExpansionSound | src/codesys_symbols_parser.py:106-119 | Expanding an unregistered type gives the empty list. Each path a registered type emits is `parent_path` extended by `.iecname` along a chain of members, each inside the previous member's type. The chain ends at a member whose type is not registered. |
| PathResolver.ElementsExpansionSound | src/codesys_symbols_parser.py:108-118 | The same, but for a member list: every emitted symbol is the leaf of a member chain that starts in that list. |
| PathResolver.TypeExpansionComplete | src/codesys_symbols_parser.py:106-119 | The converse of `TypeExpansionSound`: when the expansion succeeds, the leaf of every member chain through the type is emitted, at the chain's path and with the last member's comment and byte offset, however deep the chain is. |
| PathResolver.ElementsExpansionComplete | src/codesys_symbols_parser.py:108-118 | The same converse for a member list: the leaf of every member chain that starts in the list is emitted. |
| PathResolver.TypeExpansionExact | src/codesys_symbols_parser.py:106-119 | Both directions together: a symbol is emitted if and only if it is the leaf of a member chain through the type. |
| PathResolver.ElementsPathsAppend | src/codesys_symbols_parser.py:108-118 | Members are expanded depth first and in member order: the symbols of the members `a + b` are all those of `a`, then all those of `b`. |
| PathResolver.ChainShape | src/codesys_symbols_parser.py:108-118 | A member chain starts in the given list and each link is a member of the previous link's registered type. The last link's type is not registered. |
| PathResolver.ChainPathExtends | src/codesys_symbols_parser.py:109 | The path built along a member chain extends the parent path. |
| PathResolver.ChainPathStartsWith | src/codesys_symbols_parser.py:109 | That path starts with `parent + "." + iecname` of the chain's first member. |
| PathResolver.TypeExpansionBelow | src/codesys_symbols_parser.py:109-118 | Every path emitted by a type expansion starts with `parent_path + "."`. |
| PathResolver.TypeExpansionTotal | src/codesys_symbols_parser.py:106-119 | On a registry whose member types are ranked (acyclic), expanding a type never stops at the cycle guard. |
| PathResolver.ElementsExpansionTotal | src/codesys_symbols_parser.py:108-118 | The same for a member list. |
| PathResolver.NodePaths | src/codesys_symbols_parser.py:121-151 | `_get_node_paths`: the type expansion of the node, then its own entry or its children's symbols. `OwnEntryExactlyForLeaves`, `NodePathsBelow` and `NodePathsTotal` characterise it. |
| PathResolver.ChildrenPaths | src/codesys_symbols_parser.py:147-149 | The child loop of `_get_node_paths`. `ChildrenPathsAppend`, `ChildrenPathsBelow` and `ChildrenPathsTotal` characterise it. |
| PathResolver.Symbols | src/codesys_symbols_parser.py:153-160 | `get_symbols`: every `NodeList` resolved from the empty prefix, in order. `SymbolsAppend` and `TransparentRoot` characterise it. |
| PathResolver.NodePathsTotal | src/codesys_symbols_parser.py:121-151 | On an acyclic registry, resolving any declaration tree succeeds. |
| PathResolver.ChildrenPathsTotal | src/codesys_symbols_parser.py:148-149 | The same for a list of child nodes. |
| PathResolver.TwoTypeCycleFails | src/codesys_symbols_parser.py:117-118 | Type `A` with a member of type `B`, and `B` with a member of type `A`: expanding `A` fails with a `CycleError` on `A`, where the source would recurse without end. |
| PathResolver.NodePathsBelow | src/codesys_symbols_parser.py:132 | Below a non-empty parent prefix, every path a node emits starts with `parent + "."`. |
| PathResolver.ChildrenPathsBelow | src/codesys_symbols_parser.py:147-149 | The same for every child of a list. |
| PathResolver.OwnEntryExactlyForLeaves | src/codesys_symbols_parser.py:136-149 | A node's type paths come first. A node gets its own entry, with its own parsed comment, exactly when it has no children and its type is not registered; every other symbol lies strictly below its path. |
| PathResolver.FlatTypeDeclaration | src/codesys_symbols_parser.py:136-146 | A childless declaration whose registered type has only unregistered member types gives one symbol per member, in member order, at `path.iecname`, with the member's comment and byte offset. |
| PathResolver.FlatElements | src/codesys_symbols_parser.py:108-116 | A member list whose types are unregistered gives one leaf per member, in order. |
| PathResolver.ChildrenPathsAppend | src/codesys_symbols_parser.py:148-149 | Children are resolved in document order: the symbols of `a + b` are those of `a`, then those of `b`. |
| PathResolver.SymbolsAppend | src/codesys_symbols_parser.py:158-160 | `get_symbols` is the in-order concatenation of the per-`NodeList` results. |
| PathResolver.TransparentRoot | src/codesys_symbols_parser.py:132 | A `NodeList` with no name, under the empty prefix, adds nothing to its children's paths: each child's path is its bare name. |
| SymbolParser.CodesysSymbolParser.constructor | src/codesys_symbols_parser.py:20-26 | The new parser has no root and an empty registry. |
| SymbolParser.CodesysSymbolParser.Parse | src/codesys_symbols_parser.py:28-35 | After `parse`, the parser holds the document and the registry built from its definitions. |
| SymbolParser.CodesysSymbolParser.GetSymbols | src/codesys_symbols_parser.py:153-160 | On a parsed document, `get_symbols` returns the resolution of every `NodeList` against the document's own registry. Because it is a function of the document, calling it again gives the same sequence. |
| SymbolParser.FaultExample | src/codesys_symbols_parser.py:37-160 | Type `Fault` has `code : BOOL` at byte offset 4 and an `hmi_ignore` member `spare`, and `Application.S1 : Fault` is declared. Exactly one symbol is emitted, `Application.S1.code` with offset 4. |
| SymbolParser.FaultRegistry | src/codesys_symbols_parser.py:43-73 | The registry of that document maps `Fault` to the single record for `code`. |
| SymbolParser.FaultPaths | src/codesys_symbols_parser.py:121-160 | Resolving the declaration against that registry gives the single leaf `Application.S1.code`. |
| AlarmPatterns.MatchAt | src/alarms_extractor.py:14-16 | The pattern `Application\.S(\d+)<suffix>` tried at one position. `MatchAtCorrect` gives both directions against `MatchesAt`. |
| AlarmPatterns.SearchFrom | src/alarms_extractor.py:24 | `re.search` from a given position: the first position where `MatchAt` succeeds. `SearchFromLeftmost` characterises it. |
| AlarmPatterns.Search | src/alarms_extractor.py:24 | `re.search` on the whole path. `SearchLeftmost` and `SearchIgnoresLeadingText` characterise it. |
| AlarmPatterns.DigitRun | src/alarms_extractor.py:14-16 | The greedy `\d+` run starting at a position stays in bounds and consists of digits. The character right after it, when there is one, is not a digit. |
| AlarmPatterns.MatchAtCorrect | src/alarms_extractor.py:14-16 | At a given position the matcher captures `d` exactly when the text there reads `Application.S`, then the non-empty digits `d`, then the suffix. |
| AlarmPatterns.MatchAtSound | src/alarms_extractor.py:14-16 | What the matcher captures at a position is a match there. |
| AlarmPatterns.MatchAtComplete | src/alarms_extractor.py:14-16 | A match at a position is found there, with its digits as the capture. |
| AlarmPatterns.SearchLeftmost | src/alarms_extractor.py:24 | `re.search` reports a match exactly when the pattern occurs somewhere, and the match it reports is the leftmost one. |
| AlarmPatterns.SearchFromLeftmost | src/alarms_extractor.py:24 | The same, for a search that starts at a given position. |
| AlarmPatterns.SearchIgnoresLeadingText | src/alarms_extractor.py:24 | The search is not anchored: text before `Application.` does not prevent a match. |
| AlarmsExtractor.AlarmTypesStopDigits | src/alarms_extractor.py:13-17 | Every rule's suffix starts with a non-digit, so the greedy digit run never has to give digits back. |
| AlarmsExtractor.Classify | src/alarms_extractor.py:22-34 | What one symbol contributes: the station the first matching rule captured and an alarm with that rule's offset plus the byte offset, or nothing. `AlarmsComeFromMatches` and `FirstRuleExample` characterise it. |
| AlarmsExtractor.ClassifyAll | src/alarms_extractor.py:22-36 | The classified pairs of the symbols, in traversal order. `ClassifyAllSound`, `ClassifyAllComplete` and `ClassifyAllAppend` characterise it. |
| AlarmsExtractor.GroupsOf | src/alarms_extractor.py:30-34 | The station dictionary built from the pairs. `GroupsAreSelections`, `SelectMembers` and `AlarmCount` characterise it. |
| AlarmsExtractor.StationOrder | src/alarms_extractor.py:31-34 | The dictionary's key order: stations in order of first appearance. `StationsAreKeys` characterises it. |
| AlarmsExtractor.FirstMatch | src/alarms_extractor.py:23-36 | Returns the index of a rule whose pattern occurs and its captured digits, and every earlier rule fails. `None` means no rule's pattern occurs. |
| AlarmsExtractor.MatchRule | src/alarms_extractor.py:23-36 | The rule loop, with its `continue` and `break`, picks exactly the first matching rule. |
| AlarmsExtractor.AddToStation | src/alarms_extractor.py:30-34 | The dictionary update appends the alarm to its station's list, creating the list and its key on first use. Its result is the grouping of the pairs with this one appended. |
| AlarmsExtractor.AddSymbol | src/alarms_extractor.py:22-36 | One pass of the outer loop adds the symbol's classification to the grouping, or leaves it unchanged when no rule matches. |
| AlarmsExtractor.GetAlarmList | src/alarms_extractor.py:20-37 | The station lists and key order produced are those of the classified symbols, taken in traversal order. |
| AlarmsExtractor.AddAlarm | src/alarms_extractor.py:30-34 | One more pair appends to an existing list, or creates the list and adds its key last. |
| AlarmsExtractor.StationsAreKeys | src/alarms_extractor.py:31-34 | The key order lists each station that has a list exactly once. A station has a list exactly when some matched symbol captured it. |
| AlarmsExtractor.GroupsAreSelections | src/alarms_extractor.py:30-34 | Each station list is the subsequence of the classified pairs for that station, in order. A station without a list has no pairs. |
| AlarmsExtractor.ClassifyAllAppend | src/alarms_extractor.py:22-36 | Classification keeps traversal order over a split of the symbol list. |
| AlarmsExtractor.TraversalOrder | src/alarms_extractor.py:22-34 | Before sorting, a station's list over `a + b` is its list over `a` followed by its list over `b`. |
| AlarmsExtractor.ClassifyAllSound | src/alarms_extractor.py:22-36 | Every classified pair is the classification of some input symbol. |
| AlarmsExtractor.ClassifyAllComplete | src/alarms_extractor.py:22-36 | Every input symbol that matches a rule contributes its pair. |
| AlarmsExtractor.AlarmsComeFromMatches | src/alarms_extractor.py:24-34 | Every listed alarm carries an input symbol, unchanged, whose path matches a rule. Its station is the digits that the first matching rule captured, and its offset is that rule's offset plus the byte offset. A symbol matching no rule is in no list. |
| AlarmsExtractor.MatchesAreListed | src/alarms_extractor.py:24-34 | Every matched symbol is in the list of the station its first matching rule captured, with the offset of that rule. |
| AlarmsExtractor.SelectMembers | src/alarms_extractor.py:30-34 | An alarm is in a station's list exactly when the pair (station, alarm) was classified. |
| AlarmsExtractor.AlarmCount | src/alarms_extractor.py:30-34 | Summed over all stations, the lists hold exactly one record per matched symbol. |
| AlarmsExtractor.FirstRuleExample | src/alarms_extractor.py:14-28 | `Application.S3.stDefImdt.bFault` at byte offset 8 is station `"3"` with alarm offset 9. |
| AlarmSort.Insert | src/alarms_extractor.py:57 | One step of the stable sort: the element goes in front of the trailing run of elements with a larger offset, so after every element whose offset is not larger. `InsertSorted`, `InsertPermutes` and `InsertStable` characterise it. |
| AlarmSort.SortByOffset | src/alarms_extractor.py:57 | The reference definition of `sort(key=alarm_offset)`: insertion of each element in input order. `SortByOffsetSorted`, `SortByOffsetPermutes`, `SortByOffsetStable` and `StableSortUnique` characterise it. |
| AlarmSort.InsertSorted | src/alarms_extractor.py:57 | Inserting into a sorted list keeps it sorted by `alarm_offset`. |
| AlarmSort.InsertPermutes | src/alarms_extractor.py:57 | Insertion adds exactly the one element. |
| AlarmSort.InsertStable | src/alarms_extractor.py:57 | Insertion puts the element after every element of equal offset. |
| AlarmSort.SortByOffsetSorted | src/alarms_extractor.py:57 | The sort is non-decreasing in `alarm_offset`. |
| AlarmSort.SortByOffsetPermutes | src/alarms_extractor.py:57 | The sort is a permutation of its input. |
| AlarmSort.SortByOffsetStable | src/alarms_extractor.py:57 | The sort keeps ties in traversal order: the elements of each offset come out in their input order. |
| AlarmSort.StableSortUnique | src/alarms_extractor.py:57 | Any sorted list that keeps each offset's elements in input order equals `SortByOffset`. So every stable sort by `alarm_offset`, Python's included, gives this result. |
| AlarmSort.SortedUnique | src/alarms_extractor.py:57 | Two sorted lists with the same elements per offset, in the same order, are equal. |
| AlarmSort.SortAlarms | src/alarms_extractor.py:57 | `list.sort(key=alarm_offset)` done in place: afterwards the array holds the stable sort of its old contents. |
| AlarmSort.InsertAt | src/alarms_extractor.py:57 | One insertion step in place: the first `i + 1` cells become the insertion of cell `i` into the already sorted prefix, and the rest is unchanged. |
| AlarmSort.SortStationLists | src/alarms_extractor.py:55-57 | Sorting every station list, in key order, keeps the stations and replaces each list by its stable sort. |

## Left out

- XML loading (`ET.parse`), the namespace queries and the `typeclass='Userdef'` XPath filter are a foreign library. The document is given already parsed: definitions carry their class tag and `RegistryOf` filters on it.
- `.//ns:NodeList` is a descendant search. The model takes the document's `NodeList` elements as a flat sequence in document order.
- The `symbols_file` argument of `parse` and `__init__` is not modelled, because reading files is I/O. `Parse` receives the parsed document instead.
- `src/main.py` (dialogs, prompts, CSV output) and `src/xls_write.py` (worksheet export) are user interface and I/O.
- `write_headers`, `write_xls`, the `write_row` calls and the `print` in `write_alarms` are worksheet output and console output.
- The `__main__` blocks and the commented-out simple-type extraction are not modelled: they are scripts and dead code.
- A `Comment` or `Attribute` element whose text is empty makes the source crash on `None.strip()` or `None.split()`. The model takes a present element to have text.
- `\d` matches every Unicode decimal digit in Python; the model's `IsDigit` accepts the ASCII digits only.
- The general regular-expression engine is not modelled. An `AlarmType` holds the literal suffix of its pattern, since all three patterns are `Application\.S(\d+)` followed by a literal.
- The source searches a symbol whose `name` is `None` with `re.search`, which raises `TypeError`. `Classifiable` makes a present name a precondition.
- The in-place write of `alarm_offset` into the shared symbol dictionaries, and the aliasing between the symbol list and the station lists, are not modelled. An alarm is the value `Alarm(symbol, alarmOffset)`.
- AlarmSort.SortAlarms: Python's `list.sort` is Timsort, and the model sorts by insertion instead. `StableSortUnique` shows that both give the same list.
- The string form of `byteoffset` and its absence from the parser's symbol dictionaries are not modelled; the offset is a number carried from the member.
- PathResolver.TypeElementPaths: on a cyclic registry the source raises `RecursionError`, and the model returns `CycleError` instead.
- SymbolParser.CodesysSymbolParser.constructor: the source starts `_usertype_defs` as an empty list, which behaves like an empty registry for `in`; the model uses the empty map.
- SymbolParser.CodesysSymbolParser.GetSymbols: calling it before `parse` crashes on `None.findall` in the source. The model requires a parsed document.
- The unused member attributes (`vartype`, `enumvalue`, `compileroffset`, `bitoffset`, `inherited_from`, `propertytype`, `access`) are carried as uninterpreted optional fields.
