# Ice: the Java generator's core, JavaScript enumerations, Bluetooth connectors

This project models, in Dafny, three parts of the Ice RPC framework and
proves properties of that model.

- **slice2java, the Slice-to-Java code generator**, shared helpers
  (`cpp/src/Slice/JavaUtil.cpp`) and visitors (`cpp/src/slice2java/Gen.cpp`).
  The model covers:
  - how Slice names become Java names: keyword escaping with `lookupKwd`,
    `splitScopedName`, `fixKwd` and `convertScopedName`;
  - how metadata is read: `findMetaData`, `getTypeMetaData`, and the
    `MetaDataVisitor` that warns about each invalid directive only once;
  - the serial version UID hash: `hashAdd` and `computeSerialVersionUUID`;
  - the optional format of a Slice type (`getOptionalFormat`) and the byte
    count written in front of optional sequences and dictionaries;
  - the tables of a generated servant: the `__ops` table, `__dispatch`,
    `__operationAttributes`, `ice_operationAttributes` and `__ids`, built
    with `std::list` sort, merge and unique;
  - the order in which parameters, out-parameters and return values are
    marshalled;
  - the slices `__writeImpl` and `__readImpl` write and read for classes
    and exceptions;
  - how doc comments are split into lines and parsed (`splitComment`,
    `parseDocComment`);
  - how constants are written: byte constants, universal character names
    and `u16CodePoint`.
- **`Ice.EnumBase` and `Slice.defineEnum`** (`js/src/Ice/EnumBase.js`): the
  enumerator objects, and the class `defineEnum` builds for one
  enumeration, with its lookup table, first enumerator, maximum value and
  marshalling functions.
- **`IceBT::ConnectorI`** (`cpp/src/IceBT/ConnectorI.cpp`): equality and
  ordering of Bluetooth connectors.

The generator emits text. The model emits what the generated code *does*
rather than its text: the list of values marshalled, the table entries, the
slices, the Java name. The properties are stated about that. Loops of the
source are methods with loop invariants, each proved equal to a
specification function. The properties are lemmas about those functions.
Objects whose fields change are classes: the metadata visitor, the
enumeration class and the output stream it writes to. Everything else is
datatypes and functions.

Modules: `Text` (string order, find, split and join), `JavaNames`,
`Metadata`, `SerialUid`, `OptionalFormats`, `StringLists`, `Dispatch`,
`MarshalOrder`, `Slices`, `DocComments`, `Constants`, `EnumBases`,
`BluetoothConnectors`, `Wrappers` (`Option`).

## Model

| member | source | states |
|---|---|---|
| Text.LessIrreflexive | cpp/src/slice2java/Gen.cpp:1231-1232 | the string order used to sort names never puts a string before itself |
| Text.LessTransitive | cpp/src/slice2java/Gen.cpp:1231-1232 | the string order used to sort names chains |
| Text.LessTotal | cpp/src/slice2java/Gen.cpp:1231-1232 | of two different strings one is before the other, so the order is total |
| Text.LessAsymmetric | cpp/src/slice2java/Gen.cpp:1231-1232 | two strings are never each before the other |
| Text.SplitLacks | cpp/src/slice2java/Gen.cpp:1779-1784 | cutting a text at every occurrence of a character leaves pieces that do not contain it |
| Text.JoinSplit | cpp/src/slice2java/Gen.cpp:1779-1784 | the pieces cut at a character, joined with that character, give back the text |
| JavaNames.KeywordsStrictlySorted | cpp/src/Slice/JavaUtil.cpp:87-95 | the table of 64 Java keywords and reserved method names is strictly increasing, as binary_search requires |
| JavaNames.NotKeyword | cpp/src/Slice/JavaUtil.cpp:87-95 | a name that is empty or does not start with a lower-case letter is never a keyword |
| JavaNames.BinarySearch | cpp/src/Slice/JavaUtil.cpp:97-100 | on a strictly sorted table, a position found holds the key; when none is found, no entry in the range equals the key |
| JavaNames.KeywordSearch | cpp/src/Slice/JavaUtil.cpp:97-100 | binary search over the keyword table finds a name exactly when it is a keyword |
| JavaNames.LookupKwd | cpp/src/Slice/JavaUtil.cpp:76-101 | lookupKwd returns the name itself or the name with '_' in front |
| JavaNames.LookupKwdSpec | cpp/src/Slice/JavaUtil.cpp:76-101 | lookupKwd puts '_' in front of a keyword and returns any other name unchanged |
| JavaNames.LookupKwdIdempotent | cpp/src/Slice/JavaUtil.cpp:76-101 | an escaped name is never a keyword, so escaping twice is escaping once |
| JavaNames.LookupKwdShape | cpp/src/Slice/JavaUtil.cpp:76-101 | escaping keeps the empty name empty and starts a non-empty result with '_' or the name's first character |
| JavaNames.LookupKwdInjective | cpp/src/Slice/JavaUtil.cpp:76-101 | names that do not start with '_' escape to the same text only when they are the same |
| JavaNames.SplitScopedName | cpp/src/Slice/JavaUtil.cpp:107-136 | the loop returns exactly the components between the "::" separators of a scoped name |
| JavaNames.ScopedComponentsOfJoin | cpp/src/Slice/JavaUtil.cpp:107-136 | splitting "::" followed by colon-free identifiers joined with "::" gives back the identifiers |
| JavaNames.JoinOfScopedComponents | cpp/src/Slice/JavaUtil.cpp:107-136 | the components of a name starting with "::", joined back with "::", give the name |
| JavaNames.FixKwd | cpp/src/Slice/JavaUtil.cpp:3208-3226 | fixKwd escapes a plain name as a whole and a scoped name component by component, written back with "::"; the lemmas below state its properties |
| JavaNames.FixKwdScoped | cpp/src/Slice/JavaUtil.cpp:3208-3226 | fixKwd of a scoped name is again a scoped name, and its components are the original components, each escaped |
| JavaNames.FixKwdIdempotent | cpp/src/Slice/JavaUtil.cpp:3208-3226 | applying fixKwd twice to a simple or scoped name is applying it once |
| JavaNames.FixKwdOfEscaped | cpp/src/Slice/JavaUtil.cpp:3208-3226 | an identifier already escaped by lookupKwd is left alone by fixKwd |
| JavaNames.FixKwdLayoutScoped | cpp/src/Slice/JavaUtil.cpp:3208-3226 | fixKwd of a scoped name is "::" followed by the escaped components joined with "::" |
| JavaNames.JavaName | cpp/src/Slice/JavaUtil.cpp:3229-3276 | the Java name convertScopedName builds, appended piece by piece: the escaped components, with a '.' only between two non-empty texts, and prefix and suffix around the last component when it is not empty |
| JavaNames.JoinDottedIsJoin | cpp/src/Slice/JavaUtil.cpp:3247-3273 | appending the pieces one after the other, with a '.' only between two non-empty texts, is joining the non-empty pieces with "." |
| JavaNames.JavaNameIsJoin | cpp/src/Slice/JavaUtil.cpp:3229-3276 | for a scoped name the pieces are its own components, so the leading "::" is gone, and the Java name joins the non-empty pieces with "." |
| JavaNames.JavaNameOfScoped | cpp/src/Slice/JavaUtil.cpp:3229-3276 | with non-empty components, the Java name is the escaped components joined with ".", with prefix and suffix around the last component only |
| JavaNames.JavaNameOfPlain | cpp/src/Slice/JavaUtil.cpp:3229-3276 | a name without "::" becomes prefix, the escaped name, suffix |
| JavaNames.JavaNameNoStrayDot | cpp/src/Slice/JavaUtil.cpp:3244-3273 | when components, prefix and suffix hold no '.', the Java name has no leading, trailing or doubled '.', even with empty components |
| JavaNames.ConvertScopedName | cpp/src/Slice/JavaUtil.cpp:3229-3276 | the do-while loop over the fixKwd'ed name builds exactly JavaName, whose properties the lemmas above state |
| Metadata.FindMetaData | cpp/src/Slice/JavaUtil.cpp:5230-5242 | the directive found is the first entry with the prefix; nothing is found exactly when no entry has the prefix |
| Metadata.TypeMetaData | cpp/src/Slice/JavaUtil.cpp:5245-5270 | there is a result exactly when some entry starts with "java:type:"; the instance type has no ':' and, with the formal type, rebuilds the first such directive |
| Metadata.TypeMetaDataWithFormal | cpp/src/Slice/JavaUtil.cpp:5245-5270 | "java:type:I:F" is split back into I and F |
| Metadata.TypeMetaDataWithoutFormal | cpp/src/Slice/JavaUtil.cpp:5245-5270 | "java:type:I" gives I and an empty formal type |
| Metadata.Classify | cpp/src/Slice/JavaUtil.cpp:356-411 | how one entry not in the history is treated: an understood Java directive or "delegate" is kept, another "java:" directive warned about, a bare unknown "java:" word dropped, an entry for another language passed over quietly |
| Metadata.Filter | cpp/src/Slice/JavaUtil.cpp:349-414 | getMetaData on a list from a history: each entry not in the history is classified in turn; the history only grows |
| Metadata.FilterWarnsOnce | cpp/src/Slice/JavaUtil.cpp:356-411 | each warning names an invalid entry not met before; no warning repeats, and each is remembered in the history |
| Metadata.FilterKeeps | cpp/src/Slice/JavaUtil.cpp:356-411 | everything returned is an entry of the list that is an understood Java directive or "delegate" |
| Metadata.FilterReturnsKept | cpp/src/Slice/JavaUtil.cpp:356-411 | an understood directive that is not in the history is always returned |
| Metadata.FilterHistory | cpp/src/Slice/JavaUtil.cpp:356-411 | the history gains only warned entries and entries meant for other languages |
| Metadata.UnknownWordIsDropped | cpp/src/Slice/JavaUtil.cpp:363-378 | "java:xyz" is passed over with no warning and is not remembered, while "java:xyz:1" is warned about |
| Metadata.MetaDataVisitor.constructor | cpp/src/Slice/JavaUtil.cpp:138-504 | a new visitor has an empty history and has warned about nothing |
| Metadata.MetaDataVisitor.GetMetaData | cpp/src/Slice/JavaUtil.cpp:349-414 | the loop returns the understood directives and emits the warnings the classification gives, from the history it had; the history grows and the visitor still never warns twice |
| SerialUid.Step | cpp/src/Slice/JavaUtil.cpp:38-44 | one turn of hashAdd, ((h << 5) + h) ^ c in 64 bits, is h*33 XOR the sign-extended byte |
| SerialUid.Hash | cpp/src/Slice/JavaUtil.cpp:38-44 | the bytes folded into the hash from first to last |
| SerialUid.HashAdd | cpp/src/Slice/JavaUtil.cpp:38-44 | the loop computes the hash of the bytes in 64-bit arithmetic, where each byte is sign-extended and XORed into h*33 |
| SerialUid.HashAppend | cpp/src/Slice/JavaUtil.cpp:38-44 | hashing a + b is hashing b from the hash of a |
| SerialUid.LastByteMatters | cpp/src/Slice/JavaUtil.cpp:38-44 | two texts that differ only in their last byte get different hashes |
| SerialUid.WriteList | cpp/src/Slice/JavaUtil.cpp:516-526 | the loop writes the items separated by ", " |
| SerialUid.WriteMembers | cpp/src/Slice/JavaUtil.cpp:528-539 | the loop writes "name:type" for each member, separated by ", " |
| SerialUid.Description | cpp/src/Slice/JavaUtil.cpp:509-539 | the text that is hashed: "Name: " and the scoped name, for a class " Bases: [" and the bases' names, then " Members: [" and name:type per member, each list separated by ", " |
| SerialUid.ComputeSerialVersionUid | cpp/src/Slice/JavaUtil.cpp:509-595 | the UID is the hash, from 5381, of "Name: ... Bases: [...] Members: [...]" for a class, or of the description without bases for a struct or exception |
| OptionalFormats.OptionalFormat | cpp/src/Slice/JavaUtil.cpp:3389-3473 | a built-in type gets a fixed-width format exactly when it has a fixed encoded size, of that width; only enumerations get Size and only class instances get Class; a sequence, dictionary or struct gets FSize exactly when its contents are variable-length; a string gets VSize and a proxy FSize |
| OptionalFormats.EncodeSize | cpp/src/Slice/JavaUtil.cpp:4276-4277 | a size up to 254 takes one byte, a larger one five |
| OptionalFormats.DecodeEncodeSize | cpp/src/Slice/JavaUtil.cpp:4276-4277 | reading a written size gives it back, with the number of bytes it took, whatever follows |
| OptionalFormats.OptionalByteCount | cpp/src/Slice/JavaUtil.cpp:4275-4277 | the byte count the generated code writes: n*w + 5 for more than 254 elements, n*w + 1 otherwise |
| OptionalFormats.OptionalByteCountIsLength | cpp/src/Slice/JavaUtil.cpp:4440-4445 | the byte count written before n fixed-size elements is the length of the encoded n plus the elements |
| OptionalFormats.CountWithinMax | cpp/src/Slice/JavaUtil.cpp:4474-4479 | a byte count within range keeps the element count within range |
| OptionalFormats.JavaInt | cpp/src/Slice/JavaUtil.cpp:4275-4277 | a Java int: within -2^31..2^31-1, equal to the value modulo 2^32, and the value itself when that is in range |
| OptionalFormats.GeneratedByteCount | cpp/src/Slice/JavaUtil.cpp:4441-4443 | the byte count computed in a Java int equals the true count exactly when that fits in a Java int, and differs from it past that |
| OptionalFormats.OptionalFixedBytes | cpp/src/Slice/JavaUtil.cpp:4262-4278 | the bytes written for an optional sequence or dictionary of fixed-size elements: the byte count when one is written, the element count, the elements; a count that wrapped to a negative int is left to the stream, and only an overflowing count gets there |
| OptionalFormats.OptionalFixedSkip | cpp/src/Slice/JavaUtil.cpp:4262-4278 | a reader that skips the value as VSize lands exactly at its end if and only if no byte count is written or the count fits in a Java int; a wrapped count throws it off |
| StringLists.Insert | cpp/src/slice2java/Gen.cpp:1231 | inserting into an ordered list keeps it ordered and adds exactly the element |
| StringLists.Sort | cpp/src/slice2java/Gen.cpp:1231 | sort returns an ordered permutation of the list |
| StringLists.Merge | cpp/src/slice2java/Gen.cpp:985-986 | merging two ordered lists gives an ordered list holding both lists' elements |
| StringLists.MergeLists | cpp/src/slice2java/Gen.cpp:985-986 | the loop over the two lists computes that merge |
| StringLists.Unique | cpp/src/slice2java/Gen.cpp:1232 | unique never grows the list and keeps its last element |
| StringLists.UniqueList | cpp/src/slice2java/Gen.cpp:1232 | the loop computes unique |
| StringLists.UniqueElements | cpp/src/slice2java/Gen.cpp:1232 | unique keeps exactly the elements of the list |
| StringLists.UniqueIncreasing | cpp/src/slice2java/Gen.cpp:1232 | on an ordered list, unique leaves every element strictly before the next |
| StringLists.SortUnique | cpp/src/slice2java/Gen.cpp:1231-1232 | sort then unique gives a strictly sorted list of exactly the list's elements |
| StringLists.MergeUnique | cpp/src/slice2java/Gen.cpp:985-987 | merge then unique gives a strictly sorted list of exactly the two lists' elements |
| StringLists.StrictlySortedUnique | cpp/src/slice2java/Gen.cpp:1231-1232 | two strictly sorted lists with the same elements are equal, so the result depends only on the set of names |
| Dispatch.OpTable | cpp/src/slice2java/Gen.cpp:1222-1232 | __ops is strictly sorted and holds exactly the operation names and the four ice_ pseudo-operations |
| Dispatch.JavaBinarySearch | cpp/src/slice2java/Gen.cpp:1269 | Arrays.binarySearch finds the key's position, or returns -(insertion point)-1 with every entry before that point less than the key and every entry from it greater |
| Dispatch.FindOperation | cpp/src/slice2java/Gen.cpp:1305-1330 | the operation found is the first with the name; nothing is found exactly when none has it |
| Dispatch.CaseTarget | cpp/src/slice2java/Gen.cpp:1278-1330 | every table name has a case, which goes to the Object helper exactly for the pseudo-operations |
| Dispatch.DispatchRequest | cpp/src/slice2java/Gen.cpp:1262-1338 | an operation not in the table raises OperationNotExistException; any other goes to the case for its name |
| Dispatch.DispatchCovers | cpp/src/slice2java/Gen.cpp:1222-1232 | the sorted, de-duplicated list of the operation names and the pseudo-operations is strictly sorted and holds exactly those names |
| Dispatch.DispatchOperation | cpp/src/slice2java/Gen.cpp:1222-1338 | end to end, __ops then __dispatch: a request raises OperationNotExistException exactly when its operation is neither an operation of the interface or its bases nor a pseudo-operation; any other goes to the case for its name |
| Dispatch.AttributesMap | cpp/src/slice2java/Gen.cpp:1345-1353 | the loop builds the map of operations with non-zero attributes, where the first insertion for a name wins |
| Dispatch.AttributesOfFirst | cpp/src/slice2java/Gen.cpp:1345-1353 | a name is in the map exactly when some operation of that name has non-zero attributes, and its value is the first such operation's |
| Dispatch.AttributesTable | cpp/src/slice2java/Gen.cpp:1355-1375 | __operationAttributes lines up with __ops: the map's value for a name in it, 0 otherwise |
| Dispatch.OperationAttributes | cpp/src/slice2java/Gen.cpp:1377-1386 | ice_operationAttributes gives -1 for an unknown operation, otherwise the table entry at its position |
| Dispatch.IceOperationAttributes | cpp/src/slice2java/Gen.cpp:1222-1386 | end to end: -1 for an unknown operation, otherwise the operation's attributes, or 0 when it has none |
| Dispatch.IceIds | cpp/src/slice2java/Gen.cpp:978-987 | __ids is strictly sorted and holds exactly the bases' type ids, the type's own id and ::Ice::Object |
| MarshalOrder.WithOptionalReturn | cpp/src/slice2java/Gen.cpp:338-358 | the optional parameters in tag order, with the optional return among them by its tag |
| MarshalOrder.WithOptionalReturnSplit | cpp/src/slice2java/Gen.cpp:338-358 | the optional return goes before the first optional parameter whose tag is greater, or last |
| MarshalOrder.ResultOrder | cpp/src/slice2java/Gen.cpp:314-409 | the order of a result's values: the required out-parameters, the required return, then the optional out-parameters with an optional return at its tag position |
| MarshalOrder.ResultOrderCounts | cpp/src/slice2java/Gen.cpp:314-409 | leaving the return out, a result writes exactly its required, then its optional out-parameters, and the return exactly once when there is one |
| MarshalOrder.ResultOrderRequiredFirst | cpp/src/slice2java/Gen.cpp:321-327 | the required out-parameters come first, in declaration order |
| MarshalOrder.RequiredLoop | cpp/src/slice2java/Gen.cpp:321-327 | the first loop takes the required parameters in declaration order |
| MarshalOrder.OptionalLoop | cpp/src/slice2java/Gen.cpp:702-706 | the optional loop without a return takes the optional parameters in tag order |
| MarshalOrder.OptionalLoopWithReturn | cpp/src/slice2java/Gen.cpp:338-358 | the checkReturnType loop places the optional return at its tag position |
| MarshalOrder.ResultLoop | cpp/src/slice2java/Gen.cpp:314-409 | write, read and the marshaled result's constructor all produce the result order: required, the required return, then optional with an optional return by tag |
| MarshalOrder.InParamLoop | cpp/src/slice2java/Gen.cpp:686-712 | the proxy writes and the dispatcher reads the required in-parameters first, then the optional ones |
| Slices.ExceptionSlice | cpp/src/slice2java/Gen.cpp:3165-3186 | an exception's slice carries its scoped name and compact id -1 |
| Slices.WriteRequiredMembers | cpp/src/slice2java/Gen.cpp:1436-1442 | the first loop writes the members that are not optional, in declaration order |
| Slices.WriteOptionalMembers | cpp/src/slice2java/Gen.cpp:1443-1446 | the second loop writes the optional members in the order given |
| Slices.SliceBody | cpp/src/slice2java/Gen.cpp:1430-1451 | one type's slice: startSlice, with the type id, compact id and last flag when writing, the required members, the optional members, endSlice |
| Slices.Stream | cpp/src/slice2java/Gen.cpp:1430-1451 | a whole value: each type's slice followed by its base's, from the most derived type to the root |
| Slices.WriteImpl | cpp/src/slice2java/Gen.cpp:1430-1451 | __writeImpl: startSlice, last exactly when there is no base, then the members, endSlice; the base's method is called exactly when there is a base |
| Slices.ReadImpl | cpp/src/slice2java/Gen.cpp:1456-1480 | __readImpl: startSlice without arguments, the same members unmarshalled in the same order, endSlice; the base's method is called exactly when there is a base |
| Slices.RequiredMembers | cpp/src/slice2java/Gen.cpp:1436-1442 | the members written by the first loop are exactly the non-optional ones |
| Slices.MembersOnce | cpp/src/slice2java/Gen.cpp:1430-1451 | when the optional list holds the type's optional members, every data member is written exactly once |
| Slices.ReadMirrorsWrite | cpp/src/slice2java/Gen.cpp:1456-1480 | reading a value goes through the same slices and members in the same order as writing it |
| Slices.StreamHeaders | cpp/src/slice2java/Gen.cpp:1430-1451 | a written value holds one slice header per type, most derived first, and only the root's is marked last |
| DocComments.SplitComment | cpp/src/slice2java/Gen.cpp:1773-1792 | no line of a split comment holds a newline |
| DocComments.SplitCommentLosesOnlyBlankTail | cpp/src/slice2java/Gen.cpp:1773-1792 | the lines, with what was dropped put back, join to the comment, and what is dropped is a blank last piece |
| DocComments.SplitCommentLines | cpp/src/slice2java/Gen.cpp:1773-1792 | the find_first_of loop computes that split |
| DocComments.Trim | cpp/src/slice2java/Gen.cpp:1809 | trimming never lengthens, and a non-empty result neither starts nor ends with a blank |
| DocComments.FromMetaData | cpp/src/slice2java/Gen.cpp:1797-1811 | the comment is deprecated exactly when there is "deprecate" metadata, and all texts start empty |
| DocComments.FirstTag | cpp/src/slice2java/Gen.cpp:1820-1832 | the overview ends at the first line that starts with '@' |
| DocComments.NamedTag | cpp/src/slice2java/Gen.cpp:1846-1890 | a tag's name is non-empty and blank-free, and a description starts with a non-blank |
| DocComments.ReadOverview | cpp/src/slice2java/Gen.cpp:1820-1832 | the first loop stops at the first tag line and joins the lines before it |
| DocComments.Step | cpp/src/slice2java/Gen.cpp:1842-1974 | one line after the overview goes to the section its tag opens, or to the open section; it never changes the overview |
| DocComments.Steps | cpp/src/slice2java/Gen.cpp:1842-1974 | the lines after the overview, read one by one |
| DocComments.Parse | cpp/src/slice2java/Gen.cpp:1795-1977 | parseDocComment's result: none when there are no lines and no "deprecate" metadata, otherwise the overview and the sections read from the lines |
| DocComments.ReadSections | cpp/src/slice2java/Gen.cpp:1842-1974 | the second loop reads every line from the first tag on, one by one |
| DocComments.ParseDocComment | cpp/src/slice2java/Gen.cpp:1795-1977 | the method gives the comment parsed from the split lines and the metadata |
| DocComments.ParseNone | cpp/src/slice2java/Gen.cpp:1813-1816 | there is no doc comment exactly when the comment has no lines and there is no "deprecate" metadata |
| DocComments.ParseOverview | cpp/src/slice2java/Gen.cpp:1820-1832 | the overview is the lines before the first tag, with leading empty lines left out, joined with newlines |
| DocComments.StepsKeepOverview | cpp/src/slice2java/Gen.cpp:1842-1974 | nothing after the overview changes it |
| DocComments.PlainLinesContinue | cpp/src/slice2java/Gen.cpp:1915-1973 | untagged lines go to the open section, one newline apart, and keep it open |
| DocComments.PlainStep | cpp/src/slice2java/Gen.cpp:1915-1973 | one untagged line is added to the open section |
| DocComments.ReturnSection | cpp/src/slice2java/Gen.cpp:1891-1902 | "@return text" and the untagged lines after it make the return description |
| DocComments.ParamSection | cpp/src/slice2java/Gen.cpp:1846-1867 | "@param name text" and the untagged lines after it make that parameter's description |
| DocComments.MalformedTagSkipped | cpp/src/slice2java/Gen.cpp:1846-1890 | a @param, @throws or @exception line without a well-formed name changes nothing but closes the open section |
| DocComments.ThrowsSection | cpp/src/slice2java/Gen.cpp:1868-1890 | "@throws name text" or "@exception name text" and the untagged lines after it make that exception's description |
| DocComments.DeprecatedSection | cpp/src/slice2java/Gen.cpp:1903-1914 | "@deprecated" marks the entity deprecated; its text, or the reason so far when it has none, and the untagged lines after it make the reason |
| DocComments.MalformedReturnSkipped | cpp/src/slice2java/Gen.cpp:1891-1897 | a @return line with nothing after the tag changes nothing but closes the open section |
| DocComments.OtherTagToMisc | cpp/src/slice2java/Gen.cpp:1915-1933 | a line with any other '@' tag goes to the miscellaneous text |
| Constants.JavaByte | cpp/src/slice2java/Gen.cpp:1672-1681 | a Slice byte 0..255 becomes the Java byte -128..127 with the same value modulo 256, unchanged up to 127 |
| Constants.JavaByteInjective | cpp/src/slice2java/Gen.cpp:1672-1681 | different Slice bytes give different Java bytes |
| Constants.U16CodePoint | cpp/src/slice2java/Gen.cpp:31-40 | "\u" and four hexadecimal digits |
| Constants.U16CodePointValue | cpp/src/slice2java/Gen.cpp:31-40 | the four digits read back give the value |
| Constants.HexValueToHex | cpp/src/slice2java/Gen.cpp:35-38 | the hexadecimal digits of a number read back give the number |
| Constants.SurrogatePair | cpp/src/slice2java/Gen.cpp:1626-1631 | a code point above U+FFFF gives a high surrogate D800-DBFF and a low surrogate DC00-DFFF |
| Constants.SurrogatePairDecodes | cpp/src/slice2java/Gen.cpp:1626-1631 | the pair decodes to the code point it came from |
| Constants.SurrogatePairInjective | cpp/src/slice2java/Gen.cpp:1626-1631 | different code points give different pairs |
| Constants.EscapeCodePoint | cpp/src/slice2java/Gen.cpp:1600-1636 | backslash, newline, carriage return and double quote get their own escapes; other code points up to U+FFFF get u16CodePoint; larger ones get two \u escapes |
| Constants.EscapeAstral | cpp/src/slice2java/Gen.cpp:1626-1636 | above U+FFFF the two escapes hold the surrogates, and these decode to the code point |
| EnumBases.EnumBase.constructor | js/src/Ice/EnumBase.js:17-21 | an enumerator keeps its name, its value and its class |
| EnumBases.EnumBase.HashCode | js/src/Ice/EnumBase.js:38-41 | the hash code is the value |
| EnumBases.EnumBase.Equals | js/src/Ice/EnumBase.js:23-36 | equals: the same object, or an enumerator of the same class with the same value |
| EnumBases.EqualsIff | js/src/Ice/EnumBase.js:23-36 | two enumerators are equal exactly when they belong to the same class and have the same value; null is never equal |
| EnumBases.EqualsReflexive | js/src/Ice/EnumBase.js:23-36 | every enumerator equals itself |
| EnumBases.EqualsSymmetric | js/src/Ice/EnumBase.js:23-36 | equality is symmetric |
| EnumBases.EqualsTransitive | js/src/Ice/EnumBase.js:23-36 | equality is transitive |
| EnumBases.EqualsHashCode | js/src/Ice/EnumBase.js:23-41 | equal enumerators have equal hash codes |
| EnumBases.OutputStream.WriteEnum | js/src/Ice/EnumBase.js:132-136 | writeEnum writes the enumerator's value; given null it throws before writing anything |
| EnumBases.OutputStream.WriteOptional | js/src/Ice/EnumBase.js:147 | writeOptional writes the tag and format and answers true exactly when the stream takes optional members |
| EnumBases.EnumType.constructor | js/src/Ice/EnumBase.js:101-103 | an enumeration starts with no enumerators, no first enumerator and maximum 0 |
| EnumBases.EnumType.ValueOf | js/src/Ice/EnumBase.js:160-168 | valueOf(undefined) is the class itself; otherwise it is the enumerator with that value, or undefined when there is none |
| EnumBases.EnumType.Write | js/src/Ice/EnumBase.js:128-138 | __write writes the enumerator's value, or the first enumerator's when given none; given none for an enumeration without enumerators it throws and writes nothing |
| EnumBases.EnumType.WriteOpt | js/src/Ice/EnumBase.js:143-152 | __writeOpt writes nothing for undefined or when the stream takes no optional members, otherwise the tag with format Size and the value, the first enumerator's for null; for null and no enumerators it throws after the tag |
| EnumBases.MaxValue | js/src/Ice/EnumBase.js:118-121 | the maximum is at least 0 and every value, and it is 0 or one of the values |
| EnumBases.LastWithValue | js/src/Ice/EnumBase.js:109 | the position found is the last one with the value; none is found exactly when no pair has it |
| EnumBases.DefineEnum | js/src/Ice/EnumBase.js:91-179 | a new class whose table maps each value given to an enumerator of that class with that value and the name given last for it; firstEnum is the first pair's enumerator, null exactly when there are none; maxValue is the largest value and at least 0 |
| EnumBases.ValueOfAfterDefine | js/src/Ice/EnumBase.js:105-168 | after defineEnum, valueOf finds the enumerator given last for each value given, and nothing for any other value |
| BluetoothConnectors.CompareAddress | cpp/src/IceBT/ConnectorI.cpp:61 | a stand-in for compareAddress: the device address bytes, then the channel |
| BluetoothConnectors.CompareAddressOrder | cpp/src/IceBT/ConnectorI.cpp:61 | the stand-in address comparison is zero exactly for equal addresses, flips sign with its arguments and chains; the connector lemmas use only these facts |
| BluetoothConnectors.Equal | cpp/src/IceBT/ConnectorI.cpp:52-82 | operator==: a Bluetooth connector with the same address, UUID, timeout and connection id |
| BluetoothConnectors.Less | cpp/src/IceBT/ConnectorI.cpp:84-122 | operator<: by endpoint type against another transport, otherwise by address, UUID, timeout, then connection id |
| BluetoothConnectors.EqualIff | cpp/src/IceBT/ConnectorI.cpp:52-82 | a connector equals another exactly when that one is a Bluetooth connector with the same address, UUID, timeout and connection id |
| BluetoothConnectors.LessIsLexicographic | cpp/src/IceBT/ConnectorI.cpp:84-122 | against a Bluetooth connector, < is the lexicographic order on address, UUID, timeout and connection id |
| BluetoothConnectors.LessIrreflexive | cpp/src/IceBT/ConnectorI.cpp:84-122 | no connector is less than itself |
| BluetoothConnectors.EqualNotLess | cpp/src/IceBT/ConnectorI.cpp:52-122 | equal connectors are not ordered either way |
| BluetoothConnectors.Trichotomy | cpp/src/IceBT/ConnectorI.cpp:52-122 | of two Bluetooth connectors they are equal or exactly one is less |
| BluetoothConnectors.LessTransitive | cpp/src/IceBT/ConnectorI.cpp:84-122 | < chains, so connectors can key an ordered container |
| BluetoothConnectors.OtherTransportByType | cpp/src/IceBT/ConnectorI.cpp:52-91 | a connector of another transport is never equal, and it is ordered by endpoint type alone |

## Left out

- Output text: the generator writes Java source through an output stream.
  The model states what that code does, not its characters, indentation
  or comments.
- Warnings and errors: they are returned as lists, not printed with a file
  and line.
- JavaNames.LookupKwd: a linear scan over the keyword table. The source
  searches the table with binary_search. `JavaNames.KeywordSearch` proves
  the two agree.
- One string order stands for both C++ `std::string` comparison (list
  sort) and Java `String.compareTo` (`Arrays.binarySearch`): character
  codes, with a proper prefix first. The two agree on Slice identifiers,
  which are ASCII.
- Slice type facts: `isVariableLength`, `minWireSize` and the operation and
  data-member lists come from the Slice parser. They are inputs here.
  `ClassDef::allBases` is taken to return its bases sorted and without
  duplicates, and `Dispatch.IceIds` requires that.
- `Contained::findMetaData` (the "deprecate" lookup in parseDocComment) is
  not part of this model. It is taken to find the first entry with the
  prefix.
- `IceUtilInternal::trim` is not part of this model. It is taken to remove
  leading and trailing blanks.
- Dispatch.AttributesTable: the source emits `__operationAttributes` and
  `ice_operationAttributes` only when some operation has attributes. The
  model builds the table unconditionally. When none has attributes, every
  entry is 0; Ice's own default is then used, which is not modelled.
- SerialUid.ComputeSerialVersionUid assumes a 64-bit `long` with
  wrap-around, a signed `char`, and the narrow string's bytes. A member's
  type is written as opaque text, because `operator<<` on a type handle is
  not part of this model. Collision freedom of the hash is not claimed,
  only that the last byte always matters.
- MarshalOrder and Slices: the source has separate write and read loops:
  the result's write, read and MarshaledResult loops (Gen.cpp:321-358,
  364-405, 476-514), the proxy's and the dispatcher's in-parameter loops
  (686-712, 1116-1130), and `__writeImpl` and `__readImpl` (1430-1451,
  1456-1480). They visit the values in the same order and differ only in
  the call made for each value. `ResultLoop` and `InParamLoop` model each
  group once, and `WriteImpl` and `ReadImpl` share the member loops with a
  marshal flag. That reading follows the writing order therefore rests on
  the copies being alike, not on a proof over separate code. The
  name-escaping (`fixKwd`) of parameter names is modelled in `JavaNames`,
  not repeated there. The parser orders the optional members and
  parameters by tag; that order is an input.
- writeMarshalUnmarshalCode's per-type code and the class-graph and
  sliced-value bookkeeping of the streams are not modelled, only which
  value goes in which order.
- OptionalFormats.OptionalFixedBytes: `writeSize` of a negative int (a byte
  count that wrapped around) is up to the Java stream, which is not part of
  this model; the result is then None.
- Dispatch.DispatchOperation: the generator emits `__ops`, `__dispatch` and
  the attributes table only when the interface and its bases have some
  operation (Gen.cpp:1222-1223). Without any, the generated class keeps
  the dispatcher it inherits, which is not part of this model; the model
  builds the table anyway.
- OptionalFormats.OptionalFormat requires the type not to be LocalObject.
  The source asserts that LocalObject never reaches getOptionalFormat.
- The JavaCompatGenerator copies of fixKwd, convertScopedName and
  getOptionalFormat (JavaUtil.cpp:796-1059) are the same code as the
  JavaGenerator ones. They are modelled once.
- Constants.EscapeCodePoint requires the code point to be at most U+10FFFF,
  which the Slice parser has checked. Counting the backslashes in front of
  `\u` (whether the escape is itself escaped) is left out; the model starts
  from the code point.
- `Stream.js` (`writeEnum`, `writeOptional`) is not part of this model.
  `EnumBases.OutputStream` records what the enumeration code hands it.
- EnumBases: `Object.defineProperty` for each enumerator name, the
  `__read`, `__readOpt` and `__helper` members, and `EnumHelper` are left
  out. They only forward to the stream or attach properties.
- EnumBases.EnumType.Write and EnumBases.EnumType.WriteOpt: given null for
  an enumeration without enumerators, the source hands null to writeEnum.
  The model takes it that the stream throws before writing anything, as it
  first reads the value; `thrown` reports it, and a caller's handling of
  that exception is not modelled.
- EnumBases.EnumType.Write takes the JavaScript truthiness test `if(v)` as
  "an enumerator is given". `undefined` and `null` both count as none.
- BluetoothConnectors.CompareAddress: `compareAddress` (`IceBT/Util.cpp`)
  is not part of this model and is replaced by a stand-in order: the device
  address bytes, then the channel. The lemmas about connectors use only its
  total-order facts, `CompareAddressOrder`.
