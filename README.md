# srcdom in Dafny

A model of the core of `srcdom`, a Go library that reads Go source and builds a
small document object model of a package. The model covers:

- a `Package` with its imports, values, functions and types;
- each `Type` with its embeds, fields and methods;
- the struct-tag `Tag` of each field.

It also proves properties of these operations:

- the ordered, name-indexed collections that `Package`, `Type` and `Tag` keep;
- the struct-tag lexer and its query language;
- the renderer that turns a type expression into its canonical text;
- the parser, which walks a file's declarations and fills a `Package` in place;
- the build-constraint reading, file filtering and package selection that
  come before a directory is scanned.

Modules, one per file:

| file | module | what it holds |
|---|---|---|
| `wrappers.dfy` | `Wrappers` | `Option` and `Result` |
| `indexed.dfy` | `Indexed` | the slice-plus-index pattern every `put*` method follows: `Index`, `Lookup` |
| `gostrings.dfy` | `GoStrings` | Go's byte-wise string order and sorting of distinct names; `Join`, which the `strings.Builder` loop of `typesString` computes; `Repeat`, a helper for stating how pointer levels render |
| `textsplit.dfy` | `TextSplit` | splitting at runs of white space, as the regular expression `\s+` does |
| `strconv.dfy` | `Strconv` | the part of `strconv.Unquote` that tags and import paths use |
| `tags.dfy` | `Tags` | `TagValue`, `Tag`, `parseTag`, `parseTagValue`, `has`, `match` |
| `ast.dfy` | `Ast` | the fragment of `go/ast` the library inspects, as datatypes |
| `srcdom.dfy` | `Srcdom` | `Import`, `Var`, `Field`, `Value`, `Func`, the classes `Type` and `Package`, and their abstract values `TypeModel` and `PackageModel` |
| `astop.dfy` | `Astop` | `baseTypeName`, `typeString`, `firstName`, `toVar`, `toVarArray`, `typesString`, `toFunc` |
| `parsermodel.dfy` | `ParserModel` | what each parser step does to a `PackageModel`, as functions, and the lemmas about them |
| `parser.dfy` | `Parser` | the class `Parser`, whose methods mutate a `Package` and are proved against `ParserModel` |
| `constraint.dfy` | `Constraint` | build-constraint expressions and their evaluation |
| `read.dfy` | `Read` | `joinExprListWithOrExpr`, `extractBuildDirectives`, `sortFileNames`, and the filter, selection and scan body of `readDir` |

**How imperative code is modelled**

- Where the library updates objects in place (`Package`, `Type`, `Parser`),
  the model uses a class.
- Each class has a ghost `Model()` that returns a datatype value.
- Each method ensures that its new `Model()` equals a pure function of the old
  one. The properties are then proved as lemmas about those functions.
- A type referenced as a method receiver before its declaration is a
  placeholder object. It is later filled in place, never replaced. The
  `Package` therefore holds a sequence of `Type` objects, and its `Valid()`
  requires that they are distinct.

Several Go functions are split into more than one Dafny method, to keep each
proof small:

- `readType` becomes `Parser.ReadType` and `DefineType`;
- the declaration switch of `ReadFile` becomes `ReadDecl`, `ReadDecls`,
  `ReadImports`, `ReadTypeDecl` and `ReadSpec`;
- `putValue` inside `readValue` becomes `PutNames`;
- `assureType(..).putMethod` becomes `PutMethodOn` and `PutMethodAt`;
- the body of `readDir` becomes `FilterFiles`, `FilterPackages`,
  `SelectPackage`, `ScanPackage` and `ScanFiles`, composed in `ReadDir`.

## Model

| member | source | states |
|---|---|---|
| Indexed.IndexPut | srcdom.go:51-58 | putting a name at the end of the key list sets its index entry to the new last position and leaves every other key's entry as it was |
| Indexed.IndexIsNewest | srcdom.go:55-57 | the index has exactly the names that were put; each maps to a position whose element has that name and after which the name never occurs again, so a re-put name points at its newest element |
| Indexed.Lookup | srcdom.go:61-67 | no hit exactly for a name never put; a hit is in range, has that name, and no later element has it |
| Indexed.LookupPut | srcdom.go:51-67 | after a put, looking up the put name finds the new element; any other name's lookup is unchanged |
| GoStrings.LessIrreflexive | srcdom.go:31 | Go's byte-wise `<` on strings is irreflexive |
| GoStrings.LessTransitive | srcdom.go:31 | the string order is transitive |
| GoStrings.LessTotal | srcdom.go:31 | of two different strings one is less than the other |
| GoStrings.LessAsymmetric | srcdom.go:31 | the string order is asymmetric |
| GoStrings.InsertSorted | srcdom.go:31 | inserting a new name into a strictly sorted list keeps it strictly sorted, adds one element and adds exactly that name |
| GoStrings.SortDistinct | srcdom.go:26-33 | the result of `sort.Strings` on distinct names, defined by insertion; SortDistinctCorrect states its result |
| GoStrings.SortDistinctCorrect | srcdom.go:26-33 | sorting distinct names gives a strictly ascending list with the same length and members |
| GoStrings.StrictlySortedDistinct | srcdom.go:26-33 | a strictly sorted list has no duplicates |
| GoStrings.MinimumExists | read.go:40-42 | a non-empty set of names has a least element |
| GoStrings.Least | read.go:40-42 | the chosen least element is in the set and nothing in the set is below it |
| GoStrings.SortedKeys | read.go:35-44 | the reference ascending order of a name set, by repeated minimum; SortedKeysCorrect and StrictlySortedUnique state it |
| GoStrings.SortedKeysCorrect | read.go:35-44 | the sorted key list of a set is strictly ascending, has one entry per member and exactly the set's members |
| GoStrings.StrictlySortedUnique | read.go:35-44 | two strictly sorted lists with the same members are equal, so the sorted order of a key set is unique |
| GoStrings.Join | astop.go:140-152 | joining a single element gives that element; joining none gives the empty string |
| TextSplit.Split | srcdom.go:233-248 | `tagValueRx.Split(s, -1)` with `\s+`: the pieces between maximal white-space runs; SplitCount, SplitPiecesHaveNoSpace, SplitKeepsText and SplitSpaceFree state its properties |
| TextSplit.NextSpace | srcdom.go:233 | the scan for the next white-space character stops at the first one at or after `i`, or at the end |
| TextSplit.RunEnd | srcdom.go:233 | the scan over a run of white space stops at the first non-space character, or at the end |
| TextSplit.SplitCount | srcdom.go:242-248 | splitting yields one more piece than there are runs of white space, so `""` gives `[""]` |
| TextSplit.SplitPiecesHaveNoSpace | srcdom.go:242-248 | no piece contains white space |
| TextSplit.SplitKeepsText | srcdom.go:242-248 | the pieces put back together are the text with its white space removed |
| TextSplit.SplitSpaceFree | srcdom.go:242-248 | a text without white space is a single piece |
| TextSplit.RunsAfterWord | srcdom.go:233 | a leading word adds no run of white space |
| TextSplit.RunsAfterSpaces | srcdom.go:233 | leading white space followed by a non-space counts as one run |
| TextSplit.RunsStep | srcdom.go:233 | a word followed by a run of white space accounts for exactly one run |
| TextSplit.WordThenRun | srcdom.go:233 | a text splits into its leading word, the run after it and the rest |
| TextSplit.SqueezeAppend | srcdom.go:242-248 | removing white space distributes over concatenation |
| TextSplit.SqueezeSpaceFree | srcdom.go:242-248 | removing white space from text that is all white space gives nothing; from text with none it gives the text |
| TextSplit.SqueezeWordThenSpaces | srcdom.go:242-248 | a word followed by white space contributes just the word |
| Strconv.Unquote | srcdom.go:210-213 | the subset of `strconv.Unquote` that tags and import paths use (see Left out); UnquoteInterpretedPlain, QuotedRoundTrip, RawRoundTrip, EscapedQuote and DropCarriageReturns state its properties |
| Strconv.DropCarriageReturns | srcdom.go:210-213 | a raw string literal's value holds no carriage return |
| Strconv.UnquoteInterpretedPlain | srcdom.go:210-213 | the body of a double-quoted literal with no quote, backslash or newline decodes to itself |
| Strconv.QuotedRoundTrip | srcdom.go:210-213 | unquoting `"s"` gives `s` when `s` needs no escaping |
| Strconv.DropCarriageReturnsFree | parser.go:17 | text without carriage returns is unchanged by dropping them |
| Strconv.RawRoundTrip | parser.go:17 | unquoting a back-quoted literal gives its body when the body has no back quote and no carriage return |
| Strconv.EscapedQuote | srcdom.go:210-213 | `\"` decodes to a double quote inside an interpreted literal |
| Tags.ParseTagValue | srcdom.go:242-248 | `parseTagValue`: key, raw value and its tokens; ParseTagValueTokens states their properties |
| Tags.TagValue.Has | srcdom.go:250-257 | `has`: some token equals the value exactly; Tag.Match and SpaceFreeValueIsOneToken use it |
| Tags.ParseTagValueTokens | srcdom.go:242-248 | a pair keeps its key and raw value; its tokens are one more than the value's white-space runs, hold no white space, and together are the value without white space |
| Tags.Names | srcdom.go:165-172 | the keys of the recorded pairs, in order |
| Tags.Tag.TagValue | srcdom.go:157-163 | no pair exactly when the key was never recorded; a hit is the newest pair with that key; the second result is always `false`, even on a hit |
| Tags.Tag.PutTagValue | srcdom.go:165-172 | appends the pair, keeps `raw`, points the key at the new slot and keeps the index consistent |
| Tags.Tag.Match | srcdom.go:222-231 | true exactly when some pair has the key and, if a value is asked for, has a token equal to it |
| Tags.MatchIn | srcdom.go:222-231 | the loop of `match` over a list of pairs, with the same if-and-only-if |
| Tags.SkipSpaces | srcdom.go:179-183 | skipping leading spaces stops at the first byte that is not `' '` |
| Tags.KeyEnd | srcdom.go:188-192 | the key scan stops at the first byte that is a control or space character, `:`, `"` or DEL, and every byte before it may appear in a key |
| Tags.QuoteEnd | srcdom.go:201-207 | the quote scan stops at an unescaped closing quote, or runs past the end |
| Tags.Step | srcdom.go:177-219 | one pass of the lexer loop strictly shortens the remaining text, so the loop terminates |
| Tags.Pairs | srcdom.go:174-220 | the pairs the lexer loop records, left to right; PairsOfFormat, StepPair, StepAfterSpace, MalformedRecordsNothing and PairKeysAreKeys state its properties |
| Tags.ParsedTag | srcdom.go:174-220 | `parseTag(raw)`: raw kept, the recorded pairs, and the index of their names; Tags.ParseTag is proved equal to it |
| Tags.ParseTag | srcdom.go:174-220 | the lexer loop records `raw` verbatim and exactly the pairs the pure lexer yields, in order; the index stays consistent throughout |
| Tags.PairKeysAreKeys | srcdom.go:188-196 | every recorded key is non-empty and made of key bytes only |
| Tags.MalformedRecordsNothing | srcdom.go:184-216 | a tag whose front cannot be lexed (bad key, missing `:"`, unterminated quote, unquote failure) records nothing |
| Tags.PairsOfFormat | srcdom.go:174-220 | lexing well-formed `key:"value"` pairs followed by any text records those pairs left to right, then whatever the text yields; a malformed remainder keeps the earlier pairs |
| Tags.StepPair | srcdom.go:177-219 | a well-formed pair at the front is recorded and lexing resumes right after its closing quote |
| Tags.StepAfterSpace | srcdom.go:179-183 | leading spaces do not change what the next pass records |
| Tags.SpaceFreeValueIsOneToken | srcdom.go:242-257 | a value without white space, commas included, is one token: `match` finds its key with no value and with the whole value, and no other string is a token of it |
| Srcdom.IsPublicName | srcdom.go:18-24 | an empty name, or one whose first character is the replacement character, is not public |
| Srcdom.Func.ResultsClause | srcdom.go:271-284 | nothing for no result, a space and the type for one, the types in parentheses for several |
| Srcdom.TypesString | astop.go:140-152 | the empty string for no variables, the type alone for one |
| Srcdom.TypesStringCons | astop.go:140-152 | the types in order, separated by `", "` |
| Srcdom.SortedNames | srcdom.go:26-33 | the keys of the index map, strictly ascending, each once |
| Srcdom.PackageModel.AssureType | srcdom.go:97-104 | the returned position holds a type with the asked name |
| Srcdom.AssureTypeCases | srcdom.go:97-104 | an existing name changes nothing; a new one appends one placeholder with only the name set and all flags false; the type names grow by exactly that name |
| Srcdom.AssureTypeIdempotent | srcdom.go:97-104 | a second `assureType` of the same name changes nothing and returns the same position |
| Srcdom.AssureTypeKeepsDistinct | srcdom.go:97-104 | `assureType` never creates a second type of the same name |
| Srcdom.TagHitsStep | srcdom.go:362-372 | the `FieldsByTag` loop keeps each field whose tag matches, in order |
| Srcdom.NoHitsForEmptyKey | srcdom.go:362-372 | no field matches the empty key when every tag key is non-empty |
| Srcdom.Type.constructor | srcdom.go:97-104 | a new type is a placeholder: only its name set, every flag false, no members |
| Srcdom.Type.PutEmbed | srcdom.go:304-311 | appends the name to the embeds and points its index entry at the new slot; nothing else changes |
| Srcdom.Type.Embed | srcdom.go:319-322 | true exactly for names ever embedded |
| Srcdom.Type.PutField | srcdom.go:324-331 | appends the field and points its index entry at the new slot; nothing else changes |
| Srcdom.Type.Field | srcdom.go:334-340 | the newest field of that name, none exactly for names never put |
| Srcdom.Type.PutMethod | srcdom.go:342-349 | appends the method and points its index entry at the new slot; nothing else changes |
| Srcdom.Type.Method | srcdom.go:352-358 | the newest method of that name, none exactly for names never put |
| Srcdom.Type.FieldsByTag | srcdom.go:362-372 | the query is never read, so the fields are matched against the empty key; when every tag key is non-empty (as `parseTag` guarantees) the result is empty |
| Srcdom.TypesAppend | srcdom.go:106-113 | appending a valid, new type keeps the types valid and appends its abstract value |
| Srcdom.Package.constructor | parser.go:204-206 | a new package has only its name |
| Srcdom.Package.PutImport | parser.go:25-28 | appends one import; nothing else changes |
| Srcdom.Package.PutValue | srcdom.go:51-58 | appends the value and points its index entry at the new slot; nothing else changes |
| Srcdom.Package.Value | srcdom.go:61-67 | the newest value of that name, none exactly for names never put |
| Srcdom.Package.ValueNames | srcdom.go:70-72 | the value names, strictly ascending, each once |
| Srcdom.Package.PutFunc | srcdom.go:74-81 | appends the function and points its index entry at the new slot; nothing else changes |
| Srcdom.Package.Func | srcdom.go:84-90 | the newest function of that name, none exactly for names never put |
| Srcdom.Package.FuncNames | srcdom.go:93-95 | the function names, strictly ascending, each once |
| Srcdom.Package.PutType | srcdom.go:106-113 | appends the type object and points its index entry at the new slot; nothing else changes |
| Srcdom.Package.Type | srcdom.go:116-122 | the newest type of that name, none exactly for names never put |
| Srcdom.Package.TypeNames | srcdom.go:125-127 | the type names, strictly ascending, each once |
| Srcdom.Package.AssureType | srcdom.go:97-104 | the new state is the pure `assureType`'s; the returned object is the one at its position; earlier type objects stay and any new one is fresh |
| Srcdom.TypeReplaced | parser.go:66-67 | filling in one type object in place changes the package's value at that position only |
| Astop.BaseTypeName | astop.go:11-25 | after stripping pointer levels: an identifier gives its name, not imported; a selector on an identifier gives the selected name, imported; anything else gives `("", false)`; so imported holds exactly for a selector on an identifier |
| Astop.BaseTypeNameStars | astop.go:11-25 | any number of pointer levels are looked through |
| Astop.BaseTypeNameEndsRendering | astop.go:11-25 | the base name ends the rendering of the type, after a dot when it is imported |
| Astop.TypeString | astop.go:27-108 | `typeString` on renderable expressions. SelectorFallsThrough, ArrayLengthIgnored, FuncTypeRendering and EmptyLiteralsRendering restate single cases of the definition. The derived laws are TypeStringStars (any number of pointer levels), StructRendering and InterfaceRendering (the recursive bodies as joins), ChanRendering (the three labels, and the panic otherwise) and BaseTypeNameEndsRendering (the tie to `baseTypeName`) |
| Astop.FirstName | astop.go:110-115 | the first name, or `""` for none |
| Astop.TypeStringStars | astop.go:35-36 | each pointer level adds one `*` in front |
| Astop.SelectorFallsThrough | astop.go:31-34 | a selector on a non-identifier has no base name and renders as `""` |
| Astop.ArrayLengthIgnored | astop.go:46-47 | an array's length is ignored: a fixed array renders as a slice, `[]` followed by the element |
| Astop.FuncTypeRendering | astop.go:37-42 | `func (` + the parameter types joined by `", "` + `)`, then nothing, a space and the type, or the types in parentheses for zero, one or several results |
| Astop.StructRendering | astop.go:50-65 | a struct with members renders as `struct { ` + first name, space, type of each member joined by `"; "` + ` }` |
| Astop.InterfaceRendering | astop.go:67-88 | an interface with members renders as `interface { ` + each method's name, parameter types and results clause joined by `"; "` + ` }` |
| Astop.EmptyLiteralsRendering | astop.go:51-52 | an absent or empty member list renders as `struct{}` or `interface{}` |
| Astop.InterfacePanics | astop.go:83-84 | an interface member that is not a function type is outside what renders (the source panics) |
| Astop.ChanRendering | astop.go:90-102 | a channel renders as `chan `, `chan<- ` or `<-chan ` before the element type, and any other direction is outside what renders (the source panics) |
| Astop.ToFunc | astop.go:154-161 | the function has the given name, and no parameters or results without a function type |
| Astop.ToVar | astop.go:117-127 | `toVar`: one variable per declared name, or one unnamed one; ToVarNames states it |
| Astop.ToVarArray | astop.go:129-138 | `toVarArray`: nothing for an absent or empty list, otherwise each field's variables in order; ToVarArrayCount states the count |
| Astop.VarsFrom | astop.go:129-138 | the variables of the entries from a position on; VarsFromCount states the count |
| Astop.VarsFromCount | astop.go:129-138 | the variables of a list from position `i` number one per name, one for an unnamed field |
| Astop.ToVarArrayCount | astop.go:129-138 | `(a, b int)` counts as two variables: one per name, one per unnamed field |
| Astop.ToVarNames | astop.go:117-127 | every variable of a field carries the field's rendered type; the names are the declared ones, or one empty name |
| ParserModel.TagOf | parser.go:185-199 | `toTag`; Parser.Parser.ToTag is proved equal to it and FieldTag states its results |
| ParserModel.FieldOf | parser.go:173-183 | `toField`: the tag first, then first name and rendered type; FieldTag states its tag |
| ParserModel.VarOf | parser.go:166-171 | the parser's `toVar`: first name and rendered type; ParserKeepsFirstNameOnly contrasts it with `astop.go`'s |
| ParserModel.VarsAfter | parser.go:151-164 | the loop of the parser's `toVarArray`; VarsAfterShape states its result |
| ParserModel.VarsOf | parser.go:151-164 | the parser's `toVarArray`; VarsAfterShape states its result |
| ParserModel.ParsedFunc | parser.go:135-149 | the parser's `toFunc`; ParsedFuncShape states its result |
| ParserModel.StructSpec | parser.go:72-87 | the struct loop of `readTypeFields`; StructSpecContents gives its closed form |
| ParserModel.InterfaceSpec | parser.go:88-108 | the interface loop of `readTypeFields`; InterfaceSpecContents gives its closed form and InterfaceSpecShape its frame |
| ParserModel.TypeFieldsSpec | parser.go:70-111 | `readTypeFields`; TypeFieldsShape states its result |
| ParserModel.ReadTypeSpec | parser.go:63-68 | `readType`; ReadTypeShape states its result |
| ParserModel.DefineTypeSpec | parser.go:66-67 | the type marked defined and its body read; ReadTypeShape states its result |
| ParserModel.ReadImportSpec | parser.go:16-30 | `readImport`; ReadImportAppendsOne states its result |
| ParserModel.ImportsSpec | parser.go:213-220 | the IMPORT branch; ImportsSpecShape states its result |
| ParserModel.ValueKind | parser.go:43-51 | the `switch` of `readValue`; ValuesSpecContents states what it gives |
| ParserModel.PutValues | parser.go:52-58 | one `putValue` per name; PutValuesShape gives its closed form |
| ParserModel.ValuesSpec | parser.go:32-61 | `readValue`; ValuesSpecContents gives its closed form |
| ParserModel.TypesSpec | parser.go:236-243 | the TYPE branch's loop; TypesSpecShape states its result |
| ParserModel.TypeSpecStep | parser.go:237-242 | one spec of that loop; Parser.Parser.ReadSpec is proved equal to it |
| ParserModel.TypeDeclSpec | parser.go:226-243 | the TYPE branch; TypeShortcutIsLoop states the shortcut equals the loop |
| ParserModel.ReadFuncSpec | parser.go:113-133 | `readFunc`; ReadFuncShape states its result |
| ParserModel.DeclSpec | parser.go:209-250 | the declaration switch of `ReadFile`; DeclGrows states its result |
| ParserModel.DeclsSpec | parser.go:208-252 | the declaration loop; DeclsGrow and DeclsAppend state its result |
| ParserModel.ReadFileSpec | parser.go:202-253 | `ReadFile`; ReadFileShape states its result |
| Parser.Parser.constructor | read.go:142 | a new parser holds no package |
| Parser.Parser.ToTag | parser.go:185-199 | equals the pure `TagOf`: an absent tag gives an empty tag, a string literal is unquoted and lexed, other kinds fail |
| ParserModel.FieldTag | parser.go:173-188 | a converted field always has a tag, the empty tag without one, and none of its keys is empty |
| Parser.Parser.ToField | parser.go:173-183 | equals the pure `FieldOf`: first name, rendered type, and tag, or the tag's error |
| Parser.Parser.ToVarArray | parser.go:151-164 | equals the pure `VarsOf`: one variable per field entry |
| ParserModel.VarsAfterShape | parser.go:151-171 | one variable per field entry (not per name), with its first name and rendered type, after the ones already made; a type that cannot be rendered is the panic error |
| Parser.Parser.ToFunc | parser.go:135-149 | equals the pure `ParsedFunc` |
| ParserModel.ParsedFuncShape | parser.go:135-149 | the name is kept; no function type gives no parameters or results; otherwise one parameter per parameter entry and one result per result entry |
| ParserModel.ParserKeepsFirstNameOnly | parser.go:166-171 | `func F(a, b int)` gets the single parameter `a int` from the parser, while `astop.go`'s `toFunc` gives `a int` and `b int` |
| Parser.Parser.ReadImport | parser.go:16-30 | the new package value is the pure `ReadImportSpec`'s, and no type object changes |
| ParserModel.ReadImportAppendsOne | parser.go:16-30 | an unquote failure returns an error and appends nothing; otherwise one import with the alias or `""` and the unquoted path is appended |
| Parser.Parser.ReadImports | parser.go:213-220 | the imports of a declaration are read in order, stopping at the first error |
| ParserModel.ImportsSpecShape | parser.go:213-220 | reading imports changes only the imports, and only by appending |
| Parser.Parser.ReadValue | parser.go:32-61 | the new package value is the pure `ValuesSpec`'s |
| Parser.Parser.PutNames | parser.go:52-58 | one value per name, appended in order, sharing the spec's type and const flag |
| ParserModel.PutValuesShape | parser.go:52-58 | putting the names of a spec appends exactly one value per name, in order, and nothing else |
| ParserModel.ValuesSpecShape | parser.go:32-61 | a value declaration only appends values: one per name, in spec-then-name order, each with type `""`, and a constant only in a const declaration |
| ParserModel.ValuesSpecContents | parser.go:32-61 | a value declaration appends exactly `SpecValues` and changes nothing else: one value per name in spec-then-name order, type `""`, constant if and only if the declaration is `const` and the spec writes a type |
| ParserModel.ValuesGrow | parser.go:32-61 | a value declaration leaves the types alone and only adds to the package |
| Parser.Parser.ReadTypeFields | parser.go:70-111 | the new type value is the pure `TypeFieldsSpec`'s |
| ParserModel.StructSpecShape | parser.go:72-87 | a struct body only adds: at most one embed, at most one field per entry; the methods and flags are kept; every field key stays non-empty |
| ParserModel.StructSpecContents | parser.go:72-87 | with `k` the first entry that is not a well-formed named field: the `k` named fields are put in order with first name, rendered type and tag; then the loop ends at the list's end, with that entry's error, or with that entry as an embed of its rendered type |
| ParserModel.EmbedEndsStruct | parser.go:82-85 | the first unnamed field is recorded as an embed and ends the loop: later fields are dropped |
| ParserModel.InterfaceSpecShape | parser.go:88-108 | an interface body only adds methods, at most one per entry; fields, embeds and flags are kept, so `IsInterface` is never set |
| ParserModel.InterfaceSpecContents | parser.go:88-108 | with `k` the first member that is unnamed, not a function type, or fails to convert: the methods of the `k` members before it are put in order, each with its first name and converted signature; the loop then returns nothing at the end of the list, "embedded interface not supported" for an unnamed member, "unsupported interface method type" for a non-function member, or the conversion's error; fields, embeds and flags are kept |
| ParserModel.TypeFieldsShape | parser.go:70-111 | the type only grows, and it is a struct afterwards exactly when it was one or the expression is a struct type, even an empty one |
| Parser.Parser.ReadType | parser.go:63-68 | the new package value is the pure `ReadTypeSpec`'s; existing type objects stay, any new one is fresh |
| Parser.Parser.DefineType | parser.go:66-67 | marks the type defined and reads its body into the same object |
| ParserModel.ReadTypeShape | parser.go:63-68 | names, imports, values and functions are unchanged; the type of that name, found or newly placed, is defined and extended; no other type changes; type names stay distinct |
| ParserModel.SetTypeKeepsDistinct | parser.go:63-68 | replacing a type by one of the same name keeps the type names distinct |
| ParserModel.MethodBeforeType | parser.go:113-133 | a method seen before its receiver's declaration creates one placeholder; the declaration then defines that same entry, keeping the method, and creates no second one |
| Parser.Parser.ReadTypes | parser.go:236-243 | the type specs are read in order, stopping at the first error |
| Parser.Parser.ReadTypeDecl | parser.go:226-243 | the new package value is the pure `TypeDeclSpec`'s |
| Parser.Parser.ReadSpec | parser.go:237-242 | a type spec is read and any other spec is skipped |
| ParserModel.TypeShortcutIsLoop | parser.go:227-235 | the single-spec shortcut has the same effect as the loop |
| ParserModel.TypesSpecShape | parser.go:236-243 | a type declaration only adds to the package, keeps imports, values and functions, and keeps type names distinct |
| Parser.Parser.ReadFunc | parser.go:113-133 | the new package value is the pure `ReadFuncSpec`'s |
| Parser.Parser.PutMethodOn | parser.go:128 | `assureType(name).putMethod(f)` on the package's value |
| Parser.Parser.PutMethodAt | parser.go:128 | adds the method to the type object at its position, in place |
| ParserModel.ReadFuncShape | parser.go:113-133 | an error leaves the package unchanged; "no receivers" exactly for an empty receiver list, "imported receiver" exactly for a qualified receiver type; no receiver means `putFunc`; imports and values never change |
| ParserModel.ReadFuncGrows | parser.go:113-133 | a function declaration only adds to the package and keeps type names distinct |
| Parser.Parser.ReadDecl | parser.go:209-250 | the new package value is the pure `DeclSpec`'s |
| ParserModel.DeclGrows | parser.go:209-250 | a declaration only adds to the package and keeps type names distinct |
| Parser.Parser.ReadDecls | parser.go:208-252 | the declarations are read in file order, stopping at the first error |
| ParserModel.DeclsGrow | parser.go:208-252 | declarations only add to the package, even when one fails, and keep type names distinct |
| ParserModel.DeclsAppend | parser.go:208-252 | the first error is returned at once and what came before it stays |
| Parser.Parser.StartFile | parser.go:203-207 | a new package named after the file unless the current one has that name |
| Parser.Parser.ReadFile | parser.go:202-253 | the new package value is the pure `ReadFileSpec`'s; the package object is the old one or a fresh one; type objects are the old ones or fresh |
| ParserModel.ReadFileShape | parser.go:202-253 | the result is named after the file; it extends the current package when that has the file's name, and otherwise a fresh one; type names stay distinct |
| Read.JoinOr | read.go:54-59 | a singleton gives its element |
| Read.JoinOrEval | read.go:54-59 | the joined expression holds exactly when some element holds |
| Read.JoinOrInOrder | read.go:54-59 | the operands of the right-nested `||` are the list's elements, in order |
| Read.BuildDirectives | read.go:61-85 | `extractBuildDirectives` as a function; GoBuildWins, PlusBuildErrorWins, PlusBuildsOr and PreambleStopsAtPackage state its properties |
| Read.ExtractBuildDirectives | read.go:61-85 | the loop's result is the pure `BuildDirectives`' |
| Read.ScanGroup | read.go:67-79 | one comment group either decides the outcome or passes on the parsed `+build` lines |
| Read.DirectivesAt | read.go:67-79 | a `//go:build` comment returns its parse outcome; other non-`+build` comments are skipped; a `+build` parse error is returned; a parsed `+build` line is collected |
| Read.PreambleAt | read.go:63-66 | a group before the package clause contributes its comments |
| Read.PreambleStopsAtPackage | read.go:63-66 | scanning stops at the first group at or after the package clause; later groups are never read |
| Read.GoBuildWins | read.go:68-70 | the first `//go:build` line decides: its parse outcome is returned and `+build` lines collected so far are discarded |
| Read.PlusBuildErrorWins | read.go:74-77 | the first `+build` parse error before any `//go:build` line is the result |
| Read.PlusBuildsOr | read.go:71-84 | with no `//go:build` line and no parse error: no constraint exactly when there is no `+build` line, and otherwise the constraint holds exactly when one of the `+build` lines holds |
| Read.PlusBuildsOrStep | read.go:71-84 | collecting one more comment keeps the OR of the lines seen and to come unchanged |
| Read.KeptFiles | read.go:100-111 | the files whose constraint reads and is absent or holds under the tags: the reference FilterFiles is proved against |
| Read.FilesLeftStep | read.go:100-111 | looking at a file deletes it exactly when its constraint does not hold |
| Read.FilesLeftDone | read.go:100-111 | after the loop the files left are the kept ones |
| Read.FilterFiles | read.go:100-111 | an error exactly when some file's constraint cannot be read, with that file's error; otherwise the files whose constraint is absent or holds under the tags |
| Read.KeptPackages | read.go:98-116 | the packages with at least one kept file, holding only those: the reference FilterPackages is proved against |
| Read.PackagesLeftStep | read.go:98-116 | looking at a package filters its files and deletes it when none is left |
| Read.PackagesLeftDone | read.go:98-116 | after the loop the packages left are the kept ones |
| Read.FilterPackages | read.go:98-116 | an error exactly when some file in some package cannot be read; otherwise each package keeps its kept files, and packages left with none are removed |
| Read.Chosen | read.go:126-141 | the only package, or of a target and its `_test` package the test package exactly when it is asked for |
| Read.ChosenOne | read.go:128 | with one package, that package is chosen |
| Read.ChosenTwo | read.go:129-141 | with two packages, the shorter-named one is the target: they are a pair exactly when the other is its name plus `_test` |
| Read.SelectPackage | read.go:126-141 | success exactly for one package or a target and its `_test` package, and then the chosen one; otherwise the non-test error names the shorter-named package first |
| Read.SortFileNames | read.go:35-44 | the file names, strictly ascending, each once, exactly the map's keys |
| Read.InOrder | read.go:143-144 | the files in the order of the names |
| Read.ScanSpec | read.go:142-150 | `ScanFile` on each file in turn from the parser's state, stopping at the first error; ScanStep and ScanFiles state it |
| Read.ScanStep | read.go:143-149 | scanning one more file continues from its result, or stops at its error |
| Read.ScanFiles | read.go:142-150 | a fresh parser scans the files in turn and stops at the first error; on success the package's value is the pure `ScanSpec`'s |
| Read.ScanPackage | read.go:142-150 | the files are scanned in ascending file-name order |
| Read.ReadDir | read.go:96-150 | a constraint error exactly when some file's constraint cannot be read; no package left gives an empty package; more than two is an error; two that are not a target and its `_test` package is an error naming the shorter first; otherwise the chosen package's files are scanned in name order with the parser's outcome |

## Left out

- Input and output are not modelled: `readFile`, `Read`, `ReadDir`, `parser.ParseFile`, `parser.ParseDir` and `os.Stat` (read.go:16-33, 90-95, 165-192). `ReadDir` takes the parsed package map as a parameter.
- `getTags` reads `build.Default` (read.go:153-163). The tags are a parameter of `ReadDir`.
- The global logger: `warnf` (log.go) and the debug `log.Printf` at read.go:118-120 print and change nothing else, so the model leaves them out.
- `constraint.IsGoBuild`, `constraint.IsPlusBuild` and `constraint.Parse` from `go/build/constraint` are function-valued parameters (`Constraint.Syntax`). Only their results matter here. The text of a parse error is an uninterpreted string.
- Read.ReadDir: the error messages "multiple packages in directory %s" and "multiple non-test packages in directory %s: %s, %s" are datatype constructors without the directory path, which is not part of the model.
- Map iteration order in `readDir` and `toPackages` (read.go:46-52, 98-116) is arbitrary. The model picks elements with `:|`, and every contract is independent of the order.
- `ReadDir` deletes from the package map and from each package's file map in place. The model builds the filtered maps as new values, because both maps belong to `readDir` alone.
- `Tag` is a value in the model. The source hands out a `*Tag` that `parseTag` fills through `putTagValue`, and nothing changes it afterwards.
- `Value.Literal` (srcdom.go:380) is never set and is not modelled.
- `Func.IsPublic`, `Type.IsPublic` and `Value.IsPublic` are `IsPublicName` of the name. They are modelled as predicates and have no row of their own.
- Srcdom.IsPublicName: upper case is the ASCII range `A`..`Z`, not `unicode.IsUpper`, and a string's first character stands for the first decoded rune. The invalid-rune case is the replacement character U+FFFD.
- Strconv.Unquote models raw strings and the simple escapes `\a \b \f \n \r \t \v \\ \"`. Like Go's, it rejects `\'` inside double quotes. Octal, hexadecimal and Unicode escapes, and rune literals, are treated as failures.
- The two panics of `typeString` (astop.go:84, 100) are modelled as a precondition (`Renderable`) of `TypeString`. The parser checks it before rendering and reports `Error.Panic` where the source would panic.
- The `go/ast` node kinds the library does not inspect are folded into `OtherExpr`, `OtherSpec` and `OtherDecl`. Positions are integers.
- Concurrency does not arise: the library is sequential.

## The code as written

- **`readValue` as written** (parser.go:33-51). `prev` is never assigned, and `baseTypeName(nil)` is `("", false)`. So every value's `Type` is `""`, and `IsConst` is true only for a const spec with an explicit type. The model follows the code (`ParserModel.ValuesSpecContents`). The repository's own test, read_test.go:71-75, expects the types `int`, `string` and `float64`.
- **`+build` lines.** `extractBuildDirectives` ORs several `// +build` lines (read.go:84). The Go toolchain ANDs them. The model follows the code (`Read.PlusBuildsOr`).
- **`match` and commas.** `match` splits a value on white space only, so `name,omitempty` is one token and `match("json", "name,omitempty")` holds for the tag `` json:"name,omitempty" `` (`Tags.SpaceFreeValueIsOneToken`).
- **Embeds.** `putEmbed` does not de-duplicate: a repeated name is appended again and the index points at the newest entry (srcdom.go:304-311).
- **`IsInterface`** is never set by the parser (parser.go:88-108); `ParserModel.InterfaceSpecShape` states that the flags are kept.
- **Two `toVar`s.** The parser's `toVar` keeps a field's first name only (parser.go:166-171), while `astop.go`'s makes one variable per name (astop.go:117-127). `ParserModel.ParserKeepsFirstNameOnly` exhibits the difference on `func F(a, b int)`.
- **Names reconciled.** This version of the source calls `p.ScanFile` (read.go:28, 145), writes `typ.defined` (parser.go:66) and calls `putEmbedded` (parser.go:83). The model reads these as `ReadFile` (parser.go:202), the field `Defined` (srcdom.go:289) and `putEmbed` (srcdom.go:304).
