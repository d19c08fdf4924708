# llpyg in Dafny

llpyg generates LLGo bindings, which are Go source files, for Python libraries. For each module, a dumper asks CPython which functions the module has, with their types, doc strings and signature texts. A generator then turns each function into a Go declaration:

- it parses the signature text into arguments;
- it renames the arguments and the function into Go identifiers;
- it writes the doc string as comments;
- it links the declaration back to the Python object with a `//go:linkname` directive.

This project models that pipeline and proves what each step promises.

- `pysig.dfy` (module `PySig`) models the signature parser of `tool/pysig/parse.go`: `Parse`, `parseOptArgs`, `parseType`, `parseDefVal` and `findMatchingBracket`.
  - The parser is total: a parse either returns arguments or panics, because Go slices out of range on some malformed inputs. Divergence is a third outcome, and it is proved never to happen.
  - `pysig_examples.dfy` holds "(a: int)" from `tool/pysig/parse_test.go` and small inputs for the rules those tests exercise: optional groups at the end and nested, the "..." name, a bracketed default and a type holding a [...] group. It also holds the input on which `parseType` slices out of range.
- `pygen_names.dfy`, `pygen_params.dfy`, `pygen_spec.dfy` and `pygen_context.dfy` model the generator of `tool/pygen`:
  - `genName`, `genDoc`, `genParams`, `genFunc`, `genLinkname`, `genMod`, `genVars`, `genVar` and the package name of `createGoPackage`;
  - the class generator of `genclass.go`: `genClasses`, `genStruct`, `genConstructor`, `genMethods`, `genMethod` and `genProperties`.
  - The generator's `context` is the class `PyGen.Context`. It holds the skipped symbols and the emitted declarations, and its methods append to them. It also holds the map and list of generated structs that `genclass.go` reads; the `context` of `pygen.go` does not declare them (see Left out). gogen's objects are replaced by plain values: a parameter list, a struct's embedded parent, and comment texts.
- `llpyg.dfy` (module `LLPyg`) models the command-line generator `cmd/llpyg/llpyg.go`:
  - the run mode `parseArgs` chooses;
  - `moduleToPath`;
  - `inFuncSet`;
  - the command's own, older `genMod`, `genFunc`, `genParams` and `genName`, in the class `LLPyg.Context`.
- `pydump.dfy` (module `PyDump`) models the dumper `_xtool/pydump/pydump.go`: `extractSignatureFromDoc`, the order of sources in `getSignature`, and the `pydump` loop, which stops at the first function without a signature.
- `llpyg_dump.dfy` (module `LLPygDump`) models the older dumper `cmd/llpyg/pydump.go`. It records every attribute of the module, with a signature string that may be empty. A lemma shows that the two dumpers agree on the functions.
- `go_strings.dfy` (module `GoStrings`) defines the parts of Go's `strings` package and of `strconv.Itoa` that the code calls.

Strings are sequences of `char`, one per byte of the Go string. A Python object is represented by what CPython reports about it, which is an input to the model.

## Model

| member | source | states |
|---|---|---|
| PySig.MatchingBracket | tool/pysig/parse.go:156-174 | -1, or an index of the closing byte in a string that starts with the opening byte |
| PySig.FindMatchingBracket | tool/pysig/parse.go:156-174 | the counting loop returns exactly MatchingBracket |
| PySig.MatchingBracketFirstBalance | tool/pysig/parse.go:156-174 | the result is the first index where the nesting depth returns to 0, and -1 exactly when the string does not start with the opener or the depth never returns to 0 |
| PySig.MatchFromNone | tool/pysig/parse.go:161-173 | the scan from position i finds nothing iff the depth stays positive to the end |
| PySig.MatchFromFound | tool/pysig/parse.go:161-173 | a found index balances the bracket, and the depth is positive before it |
| PySig.MatchFromAgree | tool/pysig/parse.go:161-173 | the match depends only on the text up to it |
| PySig.ParseType | tool/pysig/parse.go:135-152 | the rest is a suffix of the input and the type is the trimmed text before it; panics exactly when the type's end cannot be found |
| PySig.ParseTypeOnClosed | tool/pysig/parse.go:135-152 | on text ending in ')', parseType panics iff the text starts with a '[' that opens a type and has no matching ']' (TypeBracketUnmatched); an unclosed '[' after other bytes does not panic. Otherwise the type stops at '=', ',', ')' or a '[' that does not open a type |
| PySig.TypeEndOnClosed | tool/pysig/parse.go:136-148 | the same, for the cut index: negative iff the text starts with an unmatched type '[' |
| PySig.TypeEndPlain | tool/pysig/parse.go:136-139 | without a type group, the type ends at the first of "=,)[" |
| PySig.GroupTail | tool/pysig/parse.go:143-147 | after a closed type group, the type ends at the next "=,)" |
| PySig.ParseDefVal | tool/pysig/parse.go:114-132 | panics iff the trimmed text is empty (sig[0] is read); the value is trimmed and the rest is a suffix |
| PySig.ParseDefValGroup | tool/pysig/parse.go:117-124 | a bracketed default runs to its matching closer |
| PySig.ParseDefValPlain | tool/pysig/parse.go:125-131 | a plain default runs to the first of "[,)", and it and the rest are empty when that is at 0 or missing |
| PySig.GroupIsTrimmed | tool/pysig/parse.go:117-124 | a bracketed default is already trimmed and still matches |
| PySig.MarkOptional | tool/pysig/parse.go:29-31 | the same arguments, each marked optional |
| PySig.SetOptional | tool/pysig/parse.go:29-31 | the loop over the optional arguments computes MarkOptional |
| PySig.OptArgsSpec | tool/pysig/parse.go:93-101 | the remaining text is a strict suffix of the input |
| PySig.ParseOptArgs | tool/pysig/parse.go:93-101 | computes OptArgsSpec and never diverges |
| PySig.Parse | tool/pysig/parse.go:12-90 | the loop computes ParseSpec and never diverges |
| PySig.NamedArgStep | tool/pysig/parse.go:45-88 | one named-argument iteration either finishes Parse or continues on a shorter closed text |
| PySig.SplitStep | tool/pysig/parse.go:65-88 | one iteration after the split byte, likewise |
| PySig.TypedArgStep | tool/pysig/parse.go:70-74 | the ':' branch, likewise |
| PySig.DefaultedArgStep | tool/pysig/parse.go:75-76 | the '=' branch, likewise |
| PySig.SpecWellFormed | tool/pysig/parse.go:12-90 | every parsed argument has a non-empty, trimmed name other than "..." (replaced by "**args" or "**kwargs"), with trimmed type and default |
| PySig.NamedArg | tool/pysig/parse.go:50-63 | a name cut before the split byte is well formed, with "..." renamed |
| PySig.SpecNotOptional | tool/pysig/parse.go:26-34 | without '[' no argument is optional |
| PySig.SpecSegments | tool/pysig/parse.go:21-100 | a successful parse is a sequence of segments: a top-level argument, which is not optional, or the arguments parseOptArgs parses from a [...] group of the text, all marked optional; a text without a matching ')' gives no arguments |
| PySig.OptionalExactlyGroups | tool/pysig/parse.go:26-34 | the same, as the existence of such segments: Optional is set exactly on the arguments of [...] groups |
| PySig.NoParensNoArgs | tool/pysig/parse.go:14-17 | a text without a balanced leading "(" gives no arguments |
| PySig.ParseIgnoresTail | tool/pysig/parse.go:14-19 | text after the matching ')' (such as "-> int") does not change the result |
| PySig.UnmatchedGroupStops | tool/pysig/parse.go:26-33 | an unclosed '[' at the head of the remainder ends the parse with the arguments so far |
| PySig.UnmatchedSplitGroupStops | tool/pysig/parse.go:77-84 | an unclosed '[' right after a name ends the parse with the arguments so far plus that name, as in "(a[b)" |
| PySig.SpecEnds | tool/pysig/parse.go:21-89 | the parse loop always ends |
| PySig.FromEnds | tool/pysig/parse.go:21-89 | the loop ends on every closed remainder |
| PySig.OptStep | tool/pysig/parse.go:26-34 | the '[' iteration appends the optional arguments and continues on a shorter closed text |
| PySig.ParenStep | tool/pysig/parse.go:35-44 | a "(a1, a2)" group becomes one argument named by its trimmed text |
| PySig.TypedStep | tool/pysig/parse.go:70-74 | the ':' branch panics when the type ends the text (sig[0] on ""), and otherwise continues with the typed argument |
| PySig.DefaultedStep | tool/pysig/parse.go:75-76 | the '=' branch continues with the argument's default |
| PySigExamples.UnclosedTypeGroupPanics | tool/pysig/parse.go:140-146 | "(a:[b)" panics: the unclosed type group makes parseType slice at -1 |
| PySigExamples.OptionalTailExample | tool/pysig/parse.go:77-83 | "(a[, b])" gives a, then b optional |
| PySigExamples.NestedGroupExample | tool/pysig/parse.go:93-100 | "(a, [b, [c]])" gives a, then b and c optional: a nested group is optional too |
| PySigExamples.EllipsisArgsExample | tool/pysig/parse.go:55-62 | "(a, ...)" gives a, then "**args" |
| PySigExamples.EllipsisKwargsExample | tool/pysig/parse.go:55-62 | "(a=1, ...)" gives a with default "1", then "**kwargs", because the previous argument has a default |
| PySigExamples.DefaultGroupExample | tool/pysig/parse.go:114-123 | "(a=(1, 2))" keeps the bracketed default "(1, 2)" whole, commas included |
| PySigExamples.BracketTypeExample | tool/pysig/parse.go:135-150 | "(a: U[b, c])" keeps the type "U[b, c]" whole, commas included |
| PySigExamples.TypedParamExample | tool/pysig/parse_test.go:18-20 | "(a: int)" parses to one argument a of type int |
| PySigExamples.ClosingParenEnds | tool/pysig/parse.go:46-49 | a remainder of ")" ends the parse |
| PyGenNames.KeywordsAreLowerWords | tool/pygen/pygen.go:112-119 | every Go keyword is a non-empty lower-case word |
| PyGenNames.TrailStart | tool/pygen/pygen.go:163-168 | the start of the trailing run of '_' |
| PyGenNames.TrailOf | tool/pygen/pygen.go:163-166 | the backward scan finds TrailStart |
| PyGenNames.Title | tool/pygen/pygen.go:172-177 | the first byte is upper-cased when it is a lower-case letter, and the rest is kept |
| PyGenNames.TitleParts | tool/pygen/pygen.go:171-178 | every part except the one at idxDontTitle is titled |
| PyGenNames.TitleInPlace | tool/pygen/pygen.go:171-178 | the in-place loop over the parts array gives TitleParts of the old parts |
| PyGenNames.GenName | tool/pygen/pygen.go:162-184 | genName computes GoName |
| PyGenNames.GoNameShape | tool/pygen/pygen.go:162-184 | the result is a core without '_', then the trailing underscores, with "_" added only to a keyword, and never a keyword |
| PyGenNames.CoreTitledFirst | tool/pygen/pygen.go:171-179 | with every part titled, the name does not start with a lower-case letter |
| PyGenNames.GoNameIdempotent | tool/pygen/pygen.go:162-184 | renaming a generated name again changes nothing |
| PyGenNames.GoIdentIsGoName | tool/pygen/pygen.go:162-184 | the name used by genFunc, genVars and genStruct is genName(name, -1) |
| PyGenNames.GenIdent | tool/pygen/pygen.go:162-184 | computes GoIdent |
| PyGenNames.LastComponentIsSuffix | tool/pygen/pygen.go:74-75 | the package name is the text after the module name's last '.' |
| PyGenNames.PackageName | tool/pygen/pygen.go:74-78 | the package name is that component, with "_" added exactly when it is a Go keyword |
| PyGenNames.DocComments | tool/pygen/pygen.go:187-197 | no comment lines iff the doc is empty |
| PyGenNames.GenDoc | tool/pygen/pygen.go:187-197 | the loop computes DocComments; llpyg's genDoc (cmd/llpyg/llpyg.go:410-420) is the same code and is modelled by this member too |
| PyGenNames.DocCommentsRoundTrip | tool/pygen/pygen.go:187-197 | every line is "// " plus a line without a newline, and removing the prefixes and joining with "\n" gives the doc back |
| PyGenParams.Escaped | tool/pygen/pygen.go:135-138 | a keyword gets "_" appended, and the result is never a keyword |
| PyGenParams.ArgStep | tool/pygen/pygen.go:130-156 | one argument is skipped iff its name is "/", "" or ","; the loop ends with no tail or with the variadic list; a named parameter is never a keyword or the va_list name |
| PyGenParams.StarSteps | tool/pygen/pygen.go:144-155 | "*x" ends with the variadic list; "*", "\\*" and "**x" end without it |
| PyGenParams.GenArg | tool/pygen/pygen.go:131-156 | the body of one iteration computes ArgStep |
| PyGenParams.ParamsLoop | tool/pygen/pygen.go:126-158 | the loop computes ParamsOf |
| PyGenParams.GenParams | tool/pygen/pygen.go:121-159 | genParams computes GenParamsSpec and never diverges |
| PyGenParams.GenParamsEnds | tool/pygen/pygen.go:121-125 | genParams panics exactly when Parse panics |
| PyGenParams.ParamsShape | tool/pygen/pygen.go:121-159 | at most one parameter per argument, only the last may be the variadic list, and variadic iff it is |
| PyGenParams.ParamNames | tool/pygen/pygen.go:135-156 | no parameter is named after a Go keyword or NameValist |
| PyGenParams.PlainStep | tool/pygen/pygen.go:156 | a plain argument becomes genName(escaped name, 0) |
| PyGenParams.PlainParams | tool/pygen/pygen.go:121-159 | plain arguments map one to one to parameters, and the result is not variadic |
| PyGenParams.ListParamName | tool/pygen/pygen.go:139-143 | the group name "list_N" becomes "listN" |
| PyGenParams.GroupParam | tool/pygen/pygen.go:139-143 | a "(...)" argument becomes listN, and numbering continues at N+1 |
| PyGenParams.SelfArgsExample | tool/pygen/pygen.go:144-155 | (self, *args, **kwargs) gives self and the variadic list |
| PyGenParams.GoNameNotValist | tool/pygen/pygen.go:199-201 | no generated name equals NameValist |
| PyGenSpec.LinknameText | tool/pygen/genfunc.go:33-35 | the directive text "//go:linkname goName py.pyName" |
| PyGenSpec.Commented | tool/pygen/genfunc.go:25-29 | the comment list ends with the directive, with the doc lines and "//" before it when there is a doc |
| PyGenSpec.CommentedRoundTrip | tool/pygen/genfunc.go:25-29 | without a doc only the directive; otherwise the doc is recovered from the lines before "//" |
| PyGenSpec.FuncEffectShape | tool/pygen/genfunc.go:10-31 | genFunc panics exactly on a visible, signed symbol whose signature makes Parse panic; a declaration is named by genName(name, -1), ends with the linkname, and is variadic iff its last parameter is the list |
| PyGenSpec.FirstByNameDistinct | tool/pygen/pygen.go:98-105 | the functions genMod generates have distinct names |
| PyGenSpec.FirstByNameNames | tool/pygen/pygen.go:98-105 | every name of the module is generated once |
| PyGenSpec.FirstByNameKeepsFirst | tool/pygen/pygen.go:98-105 | the first function of each name is the one generated |
| PyGenSpec.FirstByNameAppend | tool/pygen/pygen.go:99-105 | one more function is generated iff its name is new |
| PyGenSpec.FreshCount | tool/pygen/genvar.go:17-23 | the underscore loop stops at the first free name, and every name it skips is taken |
| PyGenSpec.Fresh | tool/pygen/genvar.go:17-24 | the chosen name is not yet used |
| PyGenSpec.Visible | tool/pygen/genvar.go:13-16 | the variables kept are not hidden |
| PyGenSpec.VarNamesFresh | tool/pygen/genvar.go:11-27 | each variable gets the first free name of genName plus underscores, given the names before it |
| PyGenSpec.VarNamesDistinct | tool/pygen/genvar.go:11-27 | the variable names are distinct |
| PyGenSpec.VarDecls | tool/pygen/genvar.go:29-38 | each variable is declared under its name with a linkname to its Python name |
| PyGenSpec.GeneratedIffNotSkipped | tool/pygen/genclass.go:16-37 | a class gets a struct, as a root or as pending, iff it is not skipped (no __init__ or several bases) |
| PyGenSpec.RootNamesFrom | tool/pygen/genclass.go:27-34 | every root struct comes from a class that derives from object or from another module |
| PyGenSpec.PendingMapFrom | tool/pygen/genclass.go:36 | every pending class derives from a class of the same module |
| PyGenSpec.FindReady | tool/pygen/genclass.go:39-47 | while classes are pending and ranked, one of them has its base generated |
| PyGenSpec.RankedStep | tool/pygen/genclass.go:42-44 | generating a ready class keeps the rest ranked |
| PyGenSpec.StuckForever | tool/pygen/genclass.go:39-47 | a pending class whose base is never generated stays pending forever, so the loop does not end |
| PyGenSpec.MultiBaseParentStalls | tool/pygen/genclass.go:22-47 | a class deriving from a skipped class with two bases is such a class |
| PyGenSpec.StructDecls | tool/pygen/genclass.go:65-90 | one struct per name |
| PyGenSpec.WorklistDone | tool/pygen/genclass.go:39-47 | when the worklist is empty, the pending classes come after the roots, each once, and each embeds its base, which was generated before it |
| PyGenSpec.DunderStripAsWritten | tool/pygen/genclass.go:125-128 | the strip panics exactly on "__" and "___" |
| PyGenSpec.DunderPanics | tool/pygen/genclass.go:125-128 | both of those names panic |
| PyGenSpec.MethodBaseNameSound | tool/pygen/genclass.go:125-128 | the corrected strip agrees wherever the original does not panic, and strips "__x__" to x |
| PyGenSpec.MethodNaming | tool/pygen/genclass.go:124-155 | a method is named by genName of the stripped name, has the receiver, returns a value iff asked to, ends with "//llgo:link name py.Class.method", and has only that comment iff the doc is empty |
| PyGenSpec.MethodDecls | tool/pygen/genclass.go:110-121 | one method per symbol, even when two share a Go name (see Left out) |
| PyGenSpec.SetterName | tool/pygen/genclass.go:166-169 | a setter's Go name starts with "Set" |
| PyGenSpec.SetterGoName | tool/pygen/genclass.go:166-169 | the setter of a property with a name not made only of '_' is named "Set" followed by the property's own Go name |
| PyGenSpec.SetterAgeExample | tool/pygen/genclass.go:166-169 | the setter of "age" is "SetAge" |
| PyGen.Context.GenFunc | tool/pygen/genfunc.go:10-31 | appends the symbol to skips when it has no signature, or its declaration to decls, and nothing else |
| PyGen.Context.GenFuncs | tool/pygen/pygen.go:98-105 | generates, in order, the first function of each name |
| PyGen.Context.GenMod | tool/pygen/pygen.go:96-109 | the functions, then the variables |
| PyGen.Context.GenVars | tool/pygen/genvar.go:11-27 | appends VarDecls of the visible variables under their fresh names |
| PyGen.Context.GenStruct | tool/pygen/genclass.go:65-90 | records the struct in the map and the list and declares it embedding py.Object or its base |
| PyGen.Context.GenClasses | tool/pygen/genclass.go:13-61 | skips the skipped classes; lists roots first, then each pending class once, after its base; maps each to its parent; then emits the members of every listed class |
| PyGen.Context.FirstPass | tool/pygen/genclass.go:16-37 | establishes the invariant: skips, roots and pending classes as in the class list |
| PyGen.Context.Drain | tool/pygen/genclass.go:39-47 | empties the worklist, appending each pending class after its base |
| PyGen.Context.GenMembers | tool/pygen/genclass.go:50-60 | the members of every listed class, in list order |
| PyGen.Context.GenClassMembers | tool/pygen/genclass.go:57-59 | constructor, methods, then properties |
| PyGen.Context.GenConstructor | tool/pygen/genclass.go:94-107 | appends "New"+name with its linkname |
| PyGen.Context.GenMethods | tool/pygen/genclass.go:110-121 | instance, class and static methods in that order |
| PyGen.Context.GenMethodList | tool/pygen/genclass.go:112-120 | one method per symbol, in order |
| PyGen.Context.GenMethod | tool/pygen/genclass.go:124-155 | appends MethodOf, whose name, receiver, result and comments MethodNaming states; a name already declared on the receiver is not refused (see Left out) |
| PyGen.Context.GenProperties | tool/pygen/genclass.go:158-171 | the getter and setter methods of each property |
| PyGen.Context.GenProperty | tool/pygen/genclass.go:160-169 | a getter "__get__" with a result and a setter "__set__" named Set_name without one, each only when present |
| LLPyg.RunMode | cmd/llpyg/llpyg.go:122-125 | "cfg" iff the argument ends in ".cfg", otherwise "cmd" |
| LLPyg.ParseArgs | cmd/llpyg/llpyg.go:106-125 | no run without a positional argument; otherwise the mode of the first one |
| LLPyg.CfgFile | cmd/llpyg/llpyg.go:122-124 | every name ending in ".cfg" is read as a configuration file |
| LLPyg.ParseArgsExamples | cmd/llpyg/llpyg.go:106-125 | numpy and pandas run as commands, llpyg.cfg as a configuration |
| LLPyg.ModuleToPathSingle | cmd/llpyg/llpyg.go:247-253 | a module without '.' is written to name.go |
| LLPyg.ModuleToPathShape | cmd/llpyg/llpyg.go:247-253 | a dotted module a.b.c is written to b/c/c.go: the components after the first, as directories, then the last component plus ".go" |
| LLPyg.ModuleToPathPair | cmd/llpyg/llpyg.go:247-253 | a.b is written to b/b.go |
| LLPyg.CollapseNoDoubleSlash | cmd/llpyg/llpyg.go:252 | filepath.Join's cleaning leaves a path without "//" unchanged |
| LLPyg.OldGenName | cmd/llpyg/llpyg.go:379-403 | llpyg's genName computes OldGoName |
| LLPyg.OldGoNameShape | cmd/llpyg/llpyg.go:379-403 | a core without '_', with "_" added only when it is default, func, var, range or empty, then the trailing underscores; never empty or reserved |
| LLPyg.OldGoNameAgrees | cmd/llpyg/llpyg.go:379-403 | with a non-empty core, the older genName equals pygen's |
| LLPyg.OldGoNameUnderscores | cmd/llpyg/llpyg.go:397-402 | a name of underscores only gets one more '_' here, while pygen's genName keeps it |
| LLPyg.VisibleCore | cmd/llpyg/llpyg.go:303-314 | for every function genFunc does not hide, the two genNames agree |
| LLPyg.OldArgStep | cmd/llpyg/llpyg.go:350-373 | one argument panics iff its name is empty (name[0] is read before the skip test); the loop ends with no tail or with the variadic list |
| LLPyg.OldGenArg | cmd/llpyg/llpyg.go:351-373 | the body of one iteration computes OldArgStep |
| LLPyg.OldKeywordStep | cmd/llpyg/llpyg.go:353-355 | a keyword argument kw becomes "_"+kw and is named Title(kw) |
| LLPyg.KeywordParamName | cmd/llpyg/llpyg.go:353-355 | genName("_"+kw, 0) is Title(kw) |
| LLPyg.OldGroupStep | cmd/llpyg/llpyg.go:356-359 | a "(...)" argument becomes listN, and numbering continues at N+1 |
| LLPyg.GroupParamName | cmd/llpyg/llpyg.go:356-359 | "list_N" becomes "listN" under the older genName |
| LLPyg.OldStarSteps | cmd/llpyg/llpyg.go:363-372 | "*x" ends with the variadic list; "*", "\\*" and "**x" end without it |
| LLPyg.OldSkipStep | cmd/llpyg/llpyg.go:360-362 | "/" and "," are skipped |
| LLPyg.OldPlainStep | cmd/llpyg/llpyg.go:373 | a plain argument becomes OldGoName(name, 0) |
| LLPyg.OldGenParams | cmd/llpyg/llpyg.go:341-376 | the loop computes OldGenParamsSpec and never diverges |
| LLPyg.OldParamsShape | cmd/llpyg/llpyg.go:341-376 | at most one parameter per argument; only the last may be the variadic list, and variadic iff it is |
| LLPyg.OldParamsNoPanic | cmd/llpyg/llpyg.go:350-356 | with non-empty trimmed names, the loop does not panic |
| LLPyg.OldGenParamsEnds | cmd/llpyg/llpyg.go:341-376 | genParams panics exactly when Parse panics: Parse never yields an empty name, so name[0] is safe |
| LLPyg.InFuncSet | cmd/llpyg/llpyg.go:270-286 | true iff the type name is one of the six function types |
| LLPyg.OldFuncEffectShape | cmd/llpyg/llpyg.go:303-324 | hidden iff the name is empty or starts with '_'; skipped iff visible without signature; panics iff Parse panics; a declaration is named by genName(name, -1), carries the doc comments and the linkname, and is variadic iff its last parameter is the list |
| LLPyg.FuncMapLastWins | cmd/llpyg/llpyg.go:289-296 | the function map holds the last function-typed symbol of each name |
| LLPyg.FuncMapEntries | cmd/llpyg/llpyg.go:289-296 | every function-typed symbol's name is a key, and each key maps to a function symbol of that name from the list |
| LLPyg.TodosOfFilter | cmd/llpyg/llpyg.go:290-296 | every symbol that is not a function goes to todos, and only those |
| LLPyg.ForContents | cmd/llpyg/llpyg.go:298-300 | every visited symbol without signature is in skips, every declaration is in decls, and each has at most one entry per key |
| LLPyg.Context.GenFunc | cmd/llpyg/llpyg.go:303-324 | appends the element to skips or the declaration to decls; todos stay unchanged |
| LLPyg.Context.SortItems | cmd/llpyg/llpyg.go:289-296 | builds the function map and appends the other symbols to todos |
| LLPyg.Context.GenFuncs | cmd/llpyg/llpyg.go:298-300 | visits every key of the map once, in some order, appending each one's skip or declaration |
| LLPyg.Context.GenMod | cmd/llpyg/llpyg.go:288-301 | todos, then one genFunc per function name, for the last definition of each, in map order |
| PyDump.FirstParagraph | _xtool/pydump/pydump.go:25-29 | a prefix of the doc without a blank line |
| PyDump.ExtractShape | _xtool/pydump/pydump.go:24-40 | a signature is found iff the trimmed first paragraph starts with "name("; it then starts with "(", is single-spaced and trimmed, and has the same fields as the line from the name's "(" on |
| PyDump.FieldsJoin | _xtool/pydump/pydump.go:38-39 | joining fields with single spaces and splitting again gives the fields back |
| PyDump.JoinFieldsSingleSpaced | _xtool/pydump/pydump.go:38-39 | the join is trimmed and single-spaced |
| PyDump.ExtractIgnoresRest | _xtool/pydump/pydump.go:25-30 | what follows the first blank line does not change the signature |
| PyDump.GetSignaturePrecedence | _xtool/pydump/pydump.go:42-72 | inspect wins, then the doc, then "(*args, **kwargs)" for a function type; no signature iff not callable or no source applies; doc signatures start with "(" and are single-spaced |
| PyDump.FunctionsHaveSignatures | _xtool/pydump/pydump.go:42-72 | a value of a function type has a signature iff it is callable, and otherwise the error is "not callable" |
| PyDump.FuncEntries | _xtool/pydump/pydump.go:87-108 | only entries with a value of a function type are recorded |
| PyDump.Pydump | _xtool/pydump/pydump.go:75-112 | the loop computes PydumpSpec: import errors, then the functions in dictionary order or the first error |
| PyDump.DumpRecordsFunctions | _xtool/pydump/pydump.go:87-110 | on success, one record per function entry, in order, with its key, type, doc and signature |
| PyDump.DumpFailsOnFirst | _xtool/pydump/pydump.go:101-105 | the dump fails iff some function has no signature, and with the error of the first one |
| PyDump.DumpErrWitness | _xtool/pydump/pydump.go:101-105 | the failing function, with every earlier one signed |
| PyDump.DumpFailsOnlyOnUncallable | _xtool/pydump/pydump.go:101-105 | the only error after import is "not callable", and it never happens when every function is callable |
| LLPygDump.SameFuncTypes | cmd/llpyg/llpyg.go:270-286 | llpyg's function set and the dumper's pyFuncTypes are the same |
| LLPygDump.SignatureTextAgrees | cmd/llpyg/pydump.go:34-55 | the string signature is the text of the newer dumper's signature when it has one, and "" when it fails |
| LLPygDump.Pydump | cmd/llpyg/pydump.go:59-96 | the loop computes PydumpSpec: import errors, otherwise every entry with a value, never failing |
| LLPygDump.DumpRecordsAll | cmd/llpyg/pydump.go:75-94 | one record per entry with a value, in order, with its key, type, doc and signature text |
| LLPygDump.Present | cmd/llpyg/pydump.go:77-80 | the entries with a value |
| LLPygDump.DumpersAgree | cmd/llpyg/pydump.go:59-96 | where the newer dumper succeeds, its records are this dumper's records of function type, with the same signature texts |

## Left out

- I/O: running the dumpers as processes, JSON encoding and decoding (`dumpToJson`, `pydump` in `tool/pygen/pygen.go:54-71` and `cmd/llpyg/llpyg.go:178-195`), writing files, `goModTidy` and configuration files. CPython is an input: a module is a list of entries, each with the type name, doc text, callability and `inspect.signature` text CPython reports.
- gogen: the generated package is modelled as the declarations the generator adds, not as Go types or printed source.
- `filepath.Abs` and the flag parsing of `parseArgs`; only the run mode and the required positional argument are modelled.
- `filepath.Clean` is modelled only for collapsing repeated '/'. Module names never produce "." or ".." components, so those are not modelled.
- Go map iteration order: `LLPyg.Context.GenFuncs` and `PyGen.Context.Drain` visit the keys in an order chosen by the verifier. Their contracts hold for every order.
- The calls from `genclass.go` pass four arguments to `genParams` (self, cls), but `tool/pygen/pygen.go` defines it with two. The parameters of constructors and methods are therefore not modelled; their names, receivers and comments are.
- White space: Go's `TrimSpace` and `Fields` also treat non-ASCII Unicode white space as space (U+0085, U+00A0, U+1680, U+2000–U+200A, U+2028, U+2029, U+202F, U+205F and U+3000). Strings here are bytes, and only ASCII white space is modelled.
- The dumpers read a doc string in slightly different ways: `IsTrue` and `Str` in `_xtool/pydump/pydump.go`, `CStr` of the object in `cmd/llpyg/pydump.go`. Both are modelled as the doc text CPython yields.
- `DictKeys`/`GetAttr` failures other than a missing value are folded into the entries given as input.
- The depth parameters (`GoIdent`, `Linkname`, `FuncEffectOf`, `OldFuncEffect` and others) are proof devices that keep definitions folded. With the default depth the value is the plain definition, as the Unfold lemmas prove.
- PyGen.Context.GenMod, PyGen.Context.GenFuncs, PyGen.Context.GenFunc: require that no generated function's signature makes `Parse` panic. Without that, Go would stop with a panic, which the model keeps as FuncEffect Panics rather than as a state change.
- LLPyg.Context.GenMod, LLPyg.Context.GenFuncs, LLPyg.Context.GenFunc: the same requirement for every function in the map.
- PyGen.Context.GenClasses: requires that every kept class has exactly one base, that class names are distinct and that pending classes are ranked, so that the worklist loop ends. It also requires `structsList == [] && structsMap == map[]` on entry: the model's context starts with no structs, and nothing else fills them. StuckForever and MultiBaseParentStalls show the loop spinning forever when the ranking is missing.
- PySig.Parse: quotes are not special. A ',' inside a quoted default splits it (tool/pysig/parse.go:125-131), and "(a:[b)" panics (tool/pysig/parse.go:140-146; UnclosedTypeGroupPanics).
- PyGen.Context.GenMethod, PyGenSpec.MethodDecls: gogen's `NewFuncWith` refuses a method whose Go name is already declared on the receiver, and `genMethod` then returns without emitting it (tool/pygen/genclass.go:137-140). The model does not track gogen's scopes, so it always appends. For example, `__len__` and `len` both give "Len", and the setter of `x` and a method `set_x` both give "SetX"; the model emits both. Likewise, gogen's rejection of a redeclared package-level name is not modelled in `genFunc` (tool/pygen/genfunc.go:23) or `genVar` (tool/pygen/genvar.go:37): `foo_bar` and `fooBar` both give "FooBar". The names map of `genVars` only sees variables.
- PyGen.Context.GenMethod: strips "__" from both ends only when the name has at least four bytes (PyGenSpec.MethodBaseName). The Go code panics on "__" and "___"; that behaviour is PyGenSpec.DunderStripAsWritten, listed under Findings.
- The `context` of `tool/pygen/pygen.go:21-28` has no `structsMap` or `structsList`, and the context built at `tool/pygen/pygen.go:93` sets neither. `genMod` never calls `genClasses` (`// TODO: class, etc.` at `tool/pygen/pygen.go:108`). So `genclass.go` does not compile against `pygen.go` as given. The model adds the two fields to `PyGen.Context` and models `GenClasses` on its own; `GenMod` does not call it.

## Findings

| source | as written | input that shows it | evidently intended | confidence | as-written member | corrected member |
|---|---|---|---|---|---|---|
| tool/pygen/genclass.go:125-128 | strips "__" from both ends whenever the name has both as prefix and suffix, slicing name[2:len(name)-2] | a method named "__" or "___" (slice bounds out of range) | strip only when the name is long enough to have both affixes, leaving other names unchanged | not executed | PyGenSpec.DunderStripAsWritten | PyGenSpec.MethodBaseName |
