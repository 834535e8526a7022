# VCG header-to-code generator, modelled in Dafny

VCG reads a Verilog module header and generates instantiation code, wire
declarations and connections for it. A designer embeds short Python scripts
between `//VCG_BEGIN` and `//VCG_END` comment markers. Each script declares
rules (`Connect`, `ConnectParam`, `WiresRule`) and asks for code
(`Instance`, `WiresDef`). The tool writes what the script produces back into
the file, between `//VCG_GEN_BEGIN_<n>` and `//VCG_GEN_END_<n>` markers.

This project models the core of that tool as pure Dafny functions and proves
properties of them:

- **Wildcard** matches a name against a `*` pattern. Its leftmost,
  earliest-greedy captures are those of Python's `re.match`.
- **Substitution** rewrites a rule target. It evaluates each `${...}` call
  with the captures bound, then fills the target's `*`s.
- **Comments** lifts inline `/*...*/` comments out of a rule target as
  `__COMMENT_<i>__` placeholders and puts them back afterwards.
- **WidthFormat** is the width-to-range text formatter. The instance
  comments and the wire declarations share it.
- **Rules** is the rule manager: adding rules, last-declared-first
  resolution, port-type filters, and constant `0`/`1` widening.
- **OrderedDict** is Python's insertion-ordered `dict` as the generators use
  it.
- **Instance** covers port and parameter connections and the rendered
  instance text.
- **Wires** covers port selection by type, lazy/greedy wire generation and
  the declaration layout.
- **Signature** is the module-header data model: ranges, widths, ports,
  parameters and the queries on them.
- **Preprocess** is the Verilog preprocessing: `define` macros, dropping the
  text before `module`, conditional compilation, and the port-section
  scanner.
- **Lexer** covers the Verilog lexer's token actions: keywords, number and
  string values, and line and column tracking.
- **Parser** covers the grammar actions that build expressions, port
  declarations and parameters, and the parser's own preprocessing.
- **Blocks** is the file processor: block extraction, script clean-up and
  re-indentation, and writing the generated regions back.
- **Engine** is the execution engine's ordered output and its `print`
  replacement.
- **Cli** is the command-line `--macros` argument parser (`parse_macros_argument`).

The model treats the Python-specific parts as follows:

- The Python evaluation of `${...}` calls is a parameter `ev` of type
  `Evaluator`.
- Block scripts are represented by the calls they make (`Engine.Call`).
- Generated block contents are passed as a sequence indexed by block number.
- The spacing constants (`_BASE_SPACING`, `_ALIGN`) are parameters `base`
  and `align`.

## Model

| member | source | states |
|---|---|---|
| Wildcard.MatchesIffDecomposes | src/vcg_rule_manager.py:219-226 | a name matches a `*` pattern exactly when the pattern's literal pieces and some newline-free captures spell the name, as the anchored `(.*)` regex requires |
| Wildcard.CapturesRebuildName | src/vcg_rule_manager.py:181-188 | a successful match gives one capture per `*`, and the pattern's pieces interleaved with the captures rebuild the name |
| Wildcard.MatchSound | src/vcg_rule_manager.py:181-182 | the backtracking matcher only returns captures that decompose the name |
| Wildcard.MatchGreedy | src/vcg_rule_manager.py:181-182 | whenever some decomposition exists the matcher succeeds, and its captures are lexicographically at least as long as any other decomposition's, as `re` picks the greedy leftmost match |
| Wildcard.TryGreedy | src/vcg_rule_manager.py:181-182 | the capture search at one `*`, trying the longest run first, finds a decomposition no shorter than any given one |
| Wildcard.DecomposesStep | src/vcg_rule_manager.py:181-182 | a decomposition is a literal prefix, a newline-free capture, and a decomposition of the rest |
| Substitution.RewriteCall | src/vcg_rule_manager.py:241-245 | the text handed to the evaluator holds no `*`: every indexed and bare capture reference has been bound to a `group_<i>` name |
| Substitution.CallReplaced | src/vcg_rule_manager.py:190-193 | a `${call}` is replaced by the call's evaluation, and scanning resumes after its first closing brace |
| Substitution.FailedCallFallsBack | src/vcg_rule_manager.py:256-259 | a call whose evaluation fails is replaced by the first capture |
| Substitution.CapturesNonEmpty | src/vcg_rule_manager.py:178-188 | a wildcard source that matched always supplies a first capture for that fallback |
| Substitution.SubstCallsNoCall | src/vcg_rule_manager.py:190-193 | a target without `${` passes the call substitution unchanged |
| Substitution.FillStarsInterleave | src/vcg_rule_manager.py:195-196 | filling each `*` of the pattern's pieces joined by `*` with the captures, one at a time, interleaves pieces and captures |
| Substitution.IdentityRule | src/vcg_rule_manager.py:177-198 | a rule whose target repeats its wildcard source maps every matching name to itself (less a final newline the match may skip) |
| Substitution.ConstantTarget | src/vcg_rule_manager.py:177-198 | a target with no `*` and no `${` is produced verbatim whether or not the source matches |
| Substitution.FillStarsNoStar | src/vcg_rule_manager.py:195-196 | filling leaves a star-free text alone |
| Substitution.CapturesInInterleave | src/vcg_rule_manager.py:195-196 | a character absent from an interleaving is absent from every capture in it |
| Comments.RestoreExtract | src/vcg_rule_manager.py:200-217 | restoring the extracted comments into the extracted text gives back the original target, for any target that does not itself spell `COMMENT` |
| Comments.RestoreExtractFrom | src/vcg_rule_manager.py:200-217 | the same round trip from any numbering start and behind any comment-free prefix |
| Comments.ExtractedCommentsClosed | src/vcg_rule_manager.py:202 | no extracted comment body contains `*/`, as the regex stops at the first close |
| Comments.ExtractKeepsStars | src/vcg_rule_manager.py:200-211 | every `*` of the target ends up either in the remaining text or inside an extracted comment |
| Comments.ExtractStarFree | src/vcg_rule_manager.py:200-211 | a target without `*` has no comment to extract and is unchanged |
| Comments.ExtractUnderscore | src/vcg_rule_manager.py:204-208 | once a comment is extracted, the text holds its placeholder's underscore |
| Comments.PlaceholdersDistinct | src/vcg_rule_manager.py:206 | no placeholder of one index begins another index's placeholder, so restoring one never touches another |
| Comments.EarlierPlaceholderAbsent | src/vcg_rule_manager.py:213-217 | the extracted text holds no placeholder numbered below its numbering start |
| WidthFormat.FormatWidth | src/vcg_instance_manager.py:178-207 | a falsy width gives no text; any other result is a `[...:0]` range |
| WidthFormat.RangeText | src/vcg_wires_manager.py:151-180 | every range written has the `[msb:0]` shape |
| WidthFormat.CountRangeSpans | src/vcg_instance_manager.py:182-191 | a count of at most one gives no range; a larger count `n` gives `[m:0]` with decimal `m` equal to `n-1` |
| WidthFormat.IntAndTextAgree | src/vcg_instance_manager.py:182-191 | an integer width and the same number written as text, padded with whitespace, format alike |
| WidthFormat.PlusOneWidth | src/vcg_instance_manager.py:193-202 | a width `x+1` with a plain operator-free `x` gives `[x:0]` |
| WidthFormat.SymbolicWidth | src/vcg_instance_manager.py:203-207 | a non-numeric width with no operator or parenthesis gives `[t-1:0]` |
| WidthFormat.OpOneBaseOf | src/vcg_instance_manager.py:193-195 | the lazy `^(.+?)\s*\+\s*1$` match of `x+1` captures exactly `x` |
| WidthFormat.OpOneBaseIsLazyMatch | src/vcg_instance_manager.py:193-195 | the computed base is the shortest prefix that the lazy regex accepts, and no base is returned exactly when no cut is accepted |
| WidthFormat.LazyCutIff | src/vcg_instance_manager.py:193-195 | a cut is accepted exactly when what follows it is optional whitespace, the operator, optional whitespace and a final `1` |
| Rules.Reset | src/vcg_rule_manager.py:90-97 | after a reset there are no rules of any kind |
| Rules.NormalizePortType | src/vcg_rule_manager.py:57 | a port-type filter is absent exactly when none or an empty one is given, and is otherwise stored lower-case |
| Rules.AddSignal | src/vcg_rule_manager.py:49-62 | adding a signal rule appends exactly one rule with its source and lower-cased type, and leaves the other rule lists alone |
| Rules.AddParam | src/vcg_rule_manager.py:64-72 | adding a parameter rule appends exactly one rule with its name and value |
| Rules.AddWire | src/vcg_rule_manager.py:74-89 | adding a wire rule appends exactly one rule with its pattern, width and expression |
| Rules.LastWhere | src/vcg_rule_manager.py:104 | the search over `reversed(rules)` returns the last rule that applies, and none exactly when no rule applies |
| Rules.ResolveSignal | src/vcg_rule_manager.py:100-122 | a port no rule applies to connects to its own name; otherwise the last applicable rule decides |
| Rules.ResolveParam | src/vcg_rule_manager.py:125-132 | a parameter has a value exactly when some rule's name matches it, and the last such rule's value is used |
| Rules.ResolveWire | src/vcg_rule_manager.py:134-167 | a wire rule matched exactly when some rule's port pattern matches; without a match lazy mode gives an empty name and greedy mode the port name; with one, the last matching rule decides |
| Rules.StoredTargetRestores | src/vcg_rule_manager.py:49-56 | the stored target and comments of a new signal rule restore to the target as written |
| Rules.ExactRuleVerbatim | src/vcg_rule_manager.py:100-122 | an exact-name rule with a target other than `0`/`1` connects that port to the target verbatim |
| Rules.ExtractedNotBit | src/vcg_rule_manager.py:170-174 | a target that is not `0`/`1` is not turned into one by comment extraction |
| Rules.ConstantBitWidened | src/vcg_rule_manager.py:113-115 | a rule whose target is `0` or `1` connects the port to a literal as wide as the port |
| Rules.ConstantTargetBit | src/vcg_rule_manager.py:177-198 | a `0`/`1` target survives substitution unchanged |
| Rules.OtherTypeSkipped | src/vcg_rule_manager.py:105-107 | a signal rule restricted to another direction does not change any port's connection; directions compare case-insensitively |
| Rules.LastParamWins | src/vcg_rule_manager.py:125-132 | the most recent parameter rule matching a name gives its value |
| Rules.WidthLiteral | src/vcg_rule_manager.py:268-292 | a port with no width, or an integer width of at most one, gets the one-bit literal `1'b<v>` |
| Rules.HandleLiteral | src/vcg_rule_manager.py:170-174 | only a value that strips to `0` or `1` is rewritten |
| Rules.WidthLiteralSized | src/vcg_rule_manager.py:276-278 | an integer width `n >= 2` gives `n'b` followed by `n` copies of the value |
| Rules.WidenedLiteralValue | src/vcg_rule_manager.py:276-278 | that widened literal reads back, through the header's number parser, as all zeros or all ones of width `n` |
| Rules.NumericWidthReadsBack | src/vcg_rule_manager.py:275-286 | for any width with a numeric value `n >= 2`, the widened literal reads back, through both the source's number parser and the corrected one, as 0 or as `n` ones |
| Rules.RepeatBitValue | src/vcg_rule_manager.py:278 | `n` repeated binary digits denote 0 or `2^n-1` |
| Rules.IntAndTextLiteralAgree | src/vcg_rule_manager.py:275-286 | an integer width and the same number as padded text give the same literal |
| Rules.SymbolicWidthReplicates | src/vcg_rule_manager.py:288-292 | a symbolic width, surrounding blanks ignored, gives the one-bit literal replicated by that width, with the width parenthesised when it holds an operator or a parenthesis |
| OrderedDict.Put | src/vcg_instance_manager.py:93-94 | assigning to a present key keeps every key's position and changes only that key's value; a new key is appended; distinct keys stay distinct |
| OrderedDict.FromEntries | src/vcg_instance_manager.py:84-98 | a dict built by assignments has distinct keys, exactly the keys assigned |
| OrderedDict.LastEntryWins | src/vcg_instance_manager.py:90-94 | each key's value is the one of its last assignment |
| OrderedDict.DistinctEntriesKept | src/vcg_instance_manager.py:90-94 | assignments with distinct keys build a dict with those entries in that order |
| Instance.ParamEntries | src/vcg_instance_manager.py:100-112 | every parameter entry is a header parameter whose resolved value it carries |
| Instance.ResolvedParamsKept | src/vcg_instance_manager.py:106-109 | every header parameter that a rule resolves gets an entry |
| Instance.ParamConnections | src/vcg_instance_manager.py:100-112 | the parameter connections have distinct keys; a header parameter is connected exactly when a rule resolves it, and each entry carries the resolved value |
| Instance.PortsConnectedInOrder | src/vcg_instance_manager.py:84-98 | ports with distinct names are connected in header order, each to its resolved signal |
| Instance.RepeatedPortLastWins | src/vcg_instance_manager.py:90-94 | a name occurring twice among the ports is connected as its last occurrence resolves |
| Instance.HeaderLines | src/vcg_instance_manager.py:116-124 | the header is `m u (` without parameters; with them, `m #(`, one line per parameter override in order, each knowing whether it is the last, and `) u (` |
| Instance.InstanceLines | src/vcg_instance_manager.py:114-130 | the instance lines are the header lines, then line `h+k` for the k-th port connection, knowing whether it is the last, then `);` |
| Instance.EmptyInstance | src/vcg_instance_manager.py:114-130 | a module with neither parameters nor ports renders as `m u (` followed by `);` |
| Instance.RenderInstance | src/vcg_instance_manager.py:130 | when no line holds a line break, splitting the rendered text at line breaks gives back exactly the instance lines |
| Instance.GenerateInstance | src/vcg_instance_manager.py:40-68 | with distinct port names and single-line texts, the line after the header for the k-th port connects that port, in header order, to the signal the rules resolve for it |
| Instance.ParamLineShape | src/vcg_instance_manager.py:132-141 | a parameter line is four spaces, a dot, the name padded to the alignment, the parenthesised value, and a comma on every line but the last |
| Instance.PortLineShape | src/vcg_instance_manager.py:143-163 | a port line starts with the indented connection, and a port with a direction has its comment at column `4+2*align` |
| Instance.ConnectionComma | src/vcg_instance_manager.py:151-153 | a connection ends with a comma exactly when it is not the last |
| Instance.PortComment | src/vcg_instance_manager.py:165-176 | a port without direction has no comment; otherwise the comment starts with `// ` and the lower-case direction |
| Instance.CommentShowsRange | src/vcg_instance_manager.py:165-191 | a port of integer width `n > 1` is commented with its direction and `[n-1:0]` |
| Wires.PortsByType | src/vcg_wires_manager.py:85-100 | an unknown port type is an error; no type selects every port; a known type selects, in order, exactly the ports of that lower-case direction, each as many times as it occurs |
| Wires.PortTypeCaseInsensitive | src/vcg_wires_manager.py:88-97 | port types are compared case-insensitively |
| Wires.WireWidthText | src/vcg_wires_manager.py:124-129 | a rule's width, when given, decides the range; with neither width there is none |
| Wires.WidthPrecedence | src/vcg_wires_manager.py:124-129 | the range is that of the rule's width if truthy, else that of the port's |
| Wires.DeclSpacing | src/vcg_wires_manager.py:131-142 | corrected: the name starts at column `base`, or one space after a prefix that is already that wide, so at least one space always separates them |
| Wires.Declaration | src/vcg_wires_manager.py:124-149 | corrected: a declaration starts with `wire`, ends with `;`, and is at least as long as the spacing and name |
| Wires.DeclarationAsWritten | src/vcg_wires_manager.py:124-149 | as written: with a range or `base > 4` it is the corrected declaration; a bare `wire` is followed by `base-4` spaces, none when `base <= 4` |
| Wires.DeclarationLayout | src/vcg_wires_manager.py:131-147 | a declaration is the prefix and a space padded to `base`, then the name, an optional ` = expression`, and `;` |
| Wires.SpacingAgrees | src/vcg_wires_manager.py:131-147 | the source's declaration and the corrected one agree whenever there is a range or `base` exceeds four |
| Wires.SingleWire | src/vcg_wires_manager.py:102-122 | corrected spacing: lazy mode without a matching rule generates nothing; anything generated is a `wire ...;` declaration |
| Wires.GreedyFallback | src/vcg_wires_manager.py:114-117 | corrected spacing: in greedy mode a port no rule matches gets a wire named after itself |
| Wires.RuleDecides | src/vcg_wires_manager.py:102-122 | corrected spacing: with a matching rule, the last one decides: an empty name suppresses the wire, and otherwise its name, width and expression make the declaration |
| Wires.KeepNonBlank | src/vcg_wires_manager.py:58-64 | exactly the non-blank declarations are kept |
| Wires.KeepNonBlankCount | src/vcg_wires_manager.py:58-64 | each text occurs among the kept ones as often as among the generated ones when it is not blank, and never when it is |
| Wires.KeptWiresCount | src/vcg_wires_manager.py:58-64 | among declarations and empty texts, filtering drops exactly the empty texts, keeping every declaration as many times as it was generated |
| Wires.KeepNonBlankInOrder | src/vcg_wires_manager.py:58-64 | the kept declarations keep their relative order |
| Wires.DeclarationsInPortOrder | src/vcg_wires_manager.py:58-64 | the declarations come out in the order of their ports |
| Wires.Declarations | src/vcg_wires_manager.py:58-69 | corrected spacing: the declarations are the generated ones with the empty texts removed, each kept as many times as generated; each is a `wire ...;`, and there are no more than there are ports |
| Wires.GenerateWires | src/vcg_wires_manager.py:41-69 | corrected spacing: an invalid pattern is reported first, then an unknown port type; otherwise the declarations are joined one per line |
| Wires.LazyWithoutRules | src/vcg_wires_manager.py:54-69 | lazy mode with no wire rules generates nothing |
| Wires.GreedyWithoutRules | src/vcg_wires_manager.py:54-69 | corrected spacing: greedy mode with no wire rules declares one default wire per port, in port order |
| Signature.ParseExpression | src/VerilogAst.py:366-384 | corrected: a decimal text reads as its value; a text with neither an apostrophe nor only digits has no value |
| Signature.BasedLiteralDispatch | src/VerilogAst.py:372-381 | corrected: a sized literal `N'<letter>digits` reads its digits in the base its letter names |
| Signature.ParseExpressionAsWritten | src/VerilogAst.py:366-384 | as written: a decimal text reads as its value; a text with neither an apostrophe nor only digits has no value; one with an apostrophe takes the reading the first of `d`, `h`, `b`, `o` found anywhere in it selects |
| Signature.LetterReadingAsWritten | src/VerilogAst.py:372-381 | as written: `d` anywhere selects decimal, else `h` hex, else `b` binary, else `o` octal, each reading the text after the last occurrence of that letter; none of them gives no value |
| Signature.AsWrittenAgrees | src/VerilogAst.py:366-384 | a sized literal whose digits hold no base letter reads the same, in the base its letter names, in the source's parser and the corrected one |
| Signature.BasedLiteralRoundTrip | src/VerilogAst.py:366-384 | writing any value in base 2, 8, 10 or 16 as a sized literal and parsing it gives the value back |
| Signature.PyIntCanonical | src/VerilogAst.py:374-381 | Python's `int(digits, base)` reads back the canonical digits of any value |
| Signature.SeparatorsIgnored | src/VerilogAst.py:374-381 | `int(text, base)` accepts single `_` separators between digits (PEP 515) and reads the text as the same digits without them |
| Signature.SeparatorPlacement | src/VerilogAst.py:374-381 | `int()` accepts one `_` right after a `0x` prefix, and rejects a leading, trailing or doubled `_` |
| Signature.ToBaseValue | src/VerilogAst.py:374-381 | the digits written for a value denote that value |
| Signature.HexDigitReadAsDecimalBase | src/VerilogAst.py:373-375 | as written, `8'hd0` contains a `d` and reads as decimal `0`; the corrected reading is 208 |
| Signature.AsWrittenHexD | src/VerilogAst.py:373-375 | the source's parser gives `8'hd0` the value 0 |
| Signature.CorrectedHexD | src/VerilogAst.py:366-384 | the corrected parser gives `8'hd0` the value 208 |
| Signature.SimplifyNumeric | src/VerilogAst.py:386-401 | corrected number reading: a bound with a literal value keeps its stripped text and that value; any other non-arithmetic bound keeps its text with no value |
| Signature.CreateRange | src/VerilogAst.py:404-413 | corrected number reading: each bound keeps its stripped text and the value read from it; the width text is derived from both bounds, and the width has a value exactly when both bounds do |
| Signature.WidthExpr | src/VerilogAst.py:64-83 | equal bounds are one bit wide; two decimal bounds give the decimal width counting both ends |
| Signature.DropParens | src/VerilogAst.py:99-100 | an enclosed text loses exactly its outer parentheses; any other text is kept |
| Signature.NewRange | src/VerilogAst.py:58-62 | a range keeps its bounds; a missing width text is derived from them; a width value is present exactly when given or both bound values are known, and is then the bound distance plus one |
| Signature.NumericRangeAgrees | src/VerilogAst.py:403-413 | a range with decimal bounds is not parametric, its width text spells its width value, and it is single-bit exactly when that width is 1 |
| Signature.DescriptionsAgree | src/VerilogAst.py:162-181 | a port is described as "1 bit", and as "single bit", exactly when it is not a vector |
| Signature.DecimalRoundTrip | src/VerilogAst.py:64-74 | a decimal range `[m:0]` yields a width that the formatter turns back into `[m:0]` |
| Signature.NameRoundTrip | src/VerilogAst.py:64-76 | a range `[N:0]` on an identifier yields a width that formats back to `[N:0]` |
| Signature.NameMinusOneRoundTrip | src/VerilogAst.py:64-104 | a range `[N-1:0]` yields a width that formats back to `[N-1:0]` |
| Signature.NameMinusOneWidth | src/VerilogAst.py:85-104 | the width of `[N-1:0]` is `N` |
| Signature.ModuleToInfo | src/VerilogAst.py:347-353 | the module summary keeps the name and, one for one and in order, every port's and parameter's fields |
| Signature.ExtractInfo | src/VerilogAst.py:454-474 | there is a summary exactly when there is a module, and it is the first module's |
| Signature.FirstModuleWins | src/VerilogAst.py:471-474 | modules after the first never change the summary |
| Signature.PortsWithDirection | src/VerilogAst.py:551-561 | the ports of one direction are exactly those of that direction, in header order |
| Signature.PortsWithDirectionCount | src/VerilogAst.py:551-561 | each port of that direction occurs in the selection as often as in the header, and no other port occurs |
| Signature.FindPort | src/VerilogAst.py:563-567 | a port is found exactly when one has that name, and it is the first such port |
| Signature.FindParameter | src/VerilogAst.py:569-573 | a parameter is found exactly when one has that name, and it is the first with that name |
| Signature.PortCountSum | src/VerilogAst.py:575-582 | when every direction is input, output or inout, the per-direction counts sum to the total |
| Preprocess.ParseMacros | src/VerilogPreprocess.py:33-57 | no macros give an empty table; a dict is copied; any other container is an error; a list fails exactly when some item is malformed, reporting the first one, and otherwise defines every item's name once and no other name |
| Preprocess.FirstMalformed | src/VerilogPreprocess.py:42-52 | the error reported is the first malformed item, since the loop raises there |
| Preprocess.LastMacroWins | src/VerilogPreprocess.py:43-50 | a name given several times takes the value of its last item; a bare name means `1` |
| Preprocess.FirstModuleLine | src/VerilogPreprocess.py:76-78 | the module line found is the first line whose stripped text starts with `module <word>`, and none is found exactly when no line does |
| Preprocess.RemovePreModule | src/VerilogPreprocess.py:70-84 | without a module line nothing is kept; otherwise exactly the lines from the first module line on are kept |
| Preprocess.RemovePreModuleIdempotent | src/VerilogPreprocess.py:70-84 | dropping the text before `module` a second time changes nothing |
| Preprocess.ScanViews | src/VerilogPreprocess.py:94-129 | the scanner sees each line's text and whether it opens a module, starts a port or parameter declaration, starts `endmodule` and holds a `;` |
| Preprocess.ScanStep | src/VerilogPreprocess.py:94-132 | each line only appends to the output, and nothing changes after `endmodule` |
| Preprocess.ScanProvenance | src/VerilogPreprocess.py:94-132 | every collected line is one of the input's lines |
| Preprocess.ExtractedLinesFromInput | src/VerilogPreprocess.py:86-137 | the ports section consists of lines of the input |
| Preprocess.ExtractPortsSection | src/VerilogPreprocess.py:134-137 | the closing text returned is always `endmodule` |
| Preprocess.PreambleIgnored | src/VerilogPreprocess.py:96-102 | lines before any module line are never collected |
| Preprocess.PreambleIrrelevant | src/VerilogPreprocess.py:264-273 | dropping the text before `module` first does not change the ports section |
| Preprocess.ModuleLineOpens | src/VerilogPreprocess.py:96-99 | a module line is copied and opens the header |
| Preprocess.HeaderCopied | src/VerilogPreprocess.py:104-108 | header lines are copied up to and including the first line holding a `;`, which completes the header |
| Preprocess.ContinuationCollected | src/VerilogPreprocess.py:122-127 | continuation lines of an open declaration are held until it closes |
| Preprocess.DeclarationKept | src/VerilogPreprocess.py:110-127 | a declaration spread over several lines is copied whole once its `;` arrives |
| Preprocess.CloseDeclaration | src/VerilogPreprocess.py:122-127 | the line holding the `;` releases the held lines and itself |
| Preprocess.NewDeclarationFlushes | src/VerilogPreprocess.py:110-114 | a new declaration releases an unclosed earlier one and starts collecting again |
| Preprocess.EndmoduleStops | src/VerilogPreprocess.py:129-132 | `endmodule` outside a declaration ends the scan and nothing after it is read |
| Preprocess.OtherLineDropped | src/VerilogPreprocess.py:110-132 | a body line that is neither a declaration nor `endmodule` is dropped |
| Preprocess.StoppedStays | src/VerilogPreprocess.py:129-132 | once stopped, the scan ignores every further line |
| Preprocess.Include | src/VerilogPreprocess.py:243-250 | a line is included exactly when every open condition is active |
| Preprocess.OnElse | src/VerilogPreprocess.py:202-209 | `else` activates a branch exactly when no earlier branch matched, and marks the condition matched |
| Preprocess.OnElsif | src/VerilogPreprocess.py:212-227 | after a matched branch `elsif` is inactive; otherwise it is active, and matched, exactly when its macro is defined |
| Preprocess.CondViews | src/VerilogPreprocess.py:161-237 | every line is classified as a comment, `ifdef`, `ifndef`, `else`, `elsif`, `endif` or plain line, keeping its text |
| Preprocess.CondStep | src/VerilogPreprocess.py:165-237 | a line is output exactly when it is not a directive and every open condition is active; `else` and `elsif` never unmatch a condition, and end a matched one's activity |
| Preprocess.CondRun | src/VerilogPreprocess.py:155-241 | the condition stack stays well formed (active implies matched) over any line sequence |
| Preprocess.PlainLinesKept | src/VerilogPreprocess.py:236-237 | outside any condition, plain lines are all kept in order |
| Preprocess.NoDirectivesIdentity | src/VerilogPreprocess.py:155-241 | a text without directives passes conditional compilation unchanged |
| Preprocess.InactiveDropsLines | src/VerilogPreprocess.py:236-237 | inside an inactive condition, plain lines are all dropped |
| Preprocess.OnlyPresenceMatters | src/VerilogPreprocess.py:175-215 | conditions depend only on which macros are defined, never on their values |
| Preprocess.DirectivesNeverKept | src/VerilogPreprocess.py:155-241 | every output line is an input line that is not a directive |
| Preprocess.CondProvenance | src/VerilogPreprocess.py:155-241 | every output line was already output or is a non-directive line of the input |
| Preprocess.IfdefThen | src/VerilogPreprocess.py:172-184 | `ifdef M` opens a condition that is active and matched exactly when `M` is defined, and the next plain line is kept only then |
| Preprocess.ElseThenEnd | src/VerilogPreprocess.py:202-234 | `else`, a line and `endif` keep the line exactly when the condition had not matched, and close the condition |
| Preprocess.IfdefElseChoice | src/VerilogPreprocess.py:172-234 | `ifdef M a else b endif` keeps `a` when `M` is defined and `b` otherwise |
| Preprocess.IncludePush | src/VerilogPreprocess.py:243-250 | opening a condition includes lines exactly when the outer ones did and the new one is active |
| Preprocess.StrayDirectivesIgnored | src/VerilogPreprocess.py:202-234 | `else`, `elsif` and `endif` outside any condition change nothing |
| Preprocess.PreprocessString | src/VerilogPreprocess.py:264-273 | the preprocessed text always ends with a line `endmodule` |
| Preprocess.PreprocessIgnoresPreamble | src/VerilogPreprocess.py:264-273 | preprocessing is conditional compilation of the ports section, the text before `module` making no difference |
| Lexer.Spelling | src/VerilogLexer.py:68-93 | every keyword's spelling is lower-case and looks up to that keyword in the reserved-word table |
| Lexer.ReservedSpelling | src/VerilogLexer.py:68-93 | a reserved word is exactly its keyword's spelling |
| Lexer.ClassifyWord | src/VerilogLexer.py:266-271 | a word is a given keyword exactly when its lower-case form spells it, and an identifier exactly when its lower-case form is not reserved |
| Lexer.KeywordAnyCase | src/VerilogLexer.py:266-271 | a keyword is recognised in any mix of cases, upper case included |
| Lexer.ClassifyIgnoresCase | src/VerilogLexer.py:266-271 | lower-casing or upper-casing a word never changes its classification |
| Lexer.NumberValue | src/VerilogLexer.py:246-264 | a number's value has no `_`, is shorter by exactly the number of `_`, and is the text itself when there was none |
| Lexer.LexNumber | src/VerilogLexer.py:246-264 | a number token keeps its kind and gets the separator-free value |
| Lexer.SeparatorIgnored | src/VerilogLexer.py:246-264 | an `_` between digits does not change a number's value |
| Lexer.NumberValueIdempotent | src/VerilogLexer.py:246-264 | removing separators twice is removing them once |
| Lexer.StringValueAsWritten | src/VerilogLexer.py:236-244 | as written, a literal without backslashes has its body, between the quotes, as its value |
| Lexer.EscapedBackslashBecomesNewline | src/VerilogLexer.py:240-242 | as written, the literal `"\\n"` becomes a newline, because `\\` is replaced before `\n`; the corrected lexer gives backslash and `n` |
| Lexer.StringValue | src/VerilogLexer.py:236-244 | the corrected value is no longer than the body, and is the body itself when it has no backslash |
| Lexer.Unescape | src/VerilogLexer.py:240-243 | unescaping never lengthens a text and leaves a backslash-free text alone |
| Lexer.UnescapeEscape | src/VerilogLexer.py:240-243 | unescaping an escaped text gives it back |
| Lexer.EscapeIsLiteralBody | src/VerilogLexer.py:237 | an escaped text is a body that the string-literal pattern accepts |
| Lexer.StringLiteralRoundTrip | src/VerilogLexer.py:236-244 | any text, escaped and quoted, lexes back to itself |
| Lexer.AdvanceCountsNewlines | src/VerilogLexer.py:274-287 | the line counter advances by exactly the newlines a newline run or block comment holds |
| Lexer.Report | src/VerilogLexer.py:274-300 | only tokens and illegal characters are reported, each at its position and current line; whitespace and comments are silent |
| Lexer.Run | src/VerilogLexer.py:274-300 | reports come at or after the starting position |
| Lexer.IllegalSkipsOne | src/VerilogLexer.py:290-300 | an illegal character is reported and lexing resumes one character later on the same line |
| Lexer.TokensArePieces | src/VerilogLexer.py:236-287 | the tokens reported are exactly the token pieces of the input, in order |
| Lexer.EventLines | src/VerilogLexer.py:274-300 | every report lies inside the input, its line number is one more than the newlines before it, and an error names the character at its position |
| Lexer.LineStart | src/VerilogLexer.py:302-304 | the line start is just after the last newline before the position, or the start of the input |
| Lexer.FindColumn | src/VerilogLexer.py:302-304 | columns count from 1, and are 1 exactly at the start of the input or just after a newline |
| Lexer.ColumnAfterNewline | src/VerilogLexer.py:302-304 | the column after a newline and `b` is the length of `b` plus one |
| Lexer.LineStartPrefix | src/VerilogLexer.py:302-304 | text after a position never changes the column computed for it |
| Lexer.ReportError | src/VerilogLexer.py:290-300 | an error report carries the event's line and character and a column between 1 and its position plus one |
| Parser.StringPrimary | src/VerilogParser.py:470-472 | the corrected string primary wraps the escaped value in quotes |
| Parser.StringPrimaryReadsBack | src/VerilogParser.py:470-472 | a rebuilt string primary is a valid literal that lexes back to the original value |
| Parser.StringPrimaryAsWrittenBreaks | src/VerilogParser.py:470-472 | as written, a value holding a quote, such as `a"b`, is re-wrapped without escaping and no longer forms one literal |
| Parser.StringPrimaryAgrees | src/VerilogParser.py:470-472 | a value without a quote, backslash, newline or tab is written the same by the source and by the corrected primary |
| Parser.RenderListIsJoin | src/VerilogParser.py:516-522 | an expression list is its items' texts joined by `, ` |
| Parser.GroupingLost | src/VerilogParser.py:451-453 | parentheses leave no trace in the text, so `(A+B)*2` and `A+B*2` render alike |
| Parser.Render | src/VerilogParser.py:405-509 | corrected string primaries: a string literal is rendered as a literal that the lexer accepts and that reads back as its value |
| Parser.RenderBalanced | src/VerilogParser.py:405-509 | every rendered expression whose string and identifier leaves hold no brackets opens and closes as many brackets of each kind |
| Parser.PackedDimension | src/VerilogParser.py:274-278 | the bracketed range built from two bounds with bracket-free leaves has balanced brackets, so the bounds can be split back out |
| Parser.PackedNameMinusOne | src/VerilogParser.py:274-278 | a dimension `[N-1:0]` gives the bound text `N-1` and the width `N` |
| Parser.GroupedBoundWidth | src/VerilogParser.py:274-278 | a bound `(A+B)*2-1` is recorded as `A+B*2-1`, so its grouping is lost |
| Parser.KeywordText | src/VerilogParser.py:254-268 | a keyword's text is recorded as its lower-case spelling, whatever case it was written in |
| Parser.NetTypeOrWire | src/VerilogParser.py:237 | a port without a net type is registered as `wire`; a given net type is kept |
| Parser.HeaderPortDeclaration | src/VerilogParser.py:222-247 | a header port is registered and recorded under its name, with its lower-case direction when given, `wire` when no net type is given, and bounds exactly when a dimension is given |
| Parser.HeaderParameter | src/VerilogParser.py:161-184 | corrected string primaries: a header parameter records its name, its rendered default, and its keyword in lower case |
| Parser.ParamBodyRecords | src/VerilogParser.py:355-391 | corrected string primaries: a body parameter list records one parameter per assignment, each as the header would |
| Parser.BodyDeclaration | src/VerilogParser.py:323-367 | in the corrected rule, a body net declaration does nothing, a port declaration in any case registers the port, and a parameter declaration adds its parameters |
| Parser.BodyDeclarationAsWritten | src/VerilogParser.py:333-367 | as written: a body port registers exactly when its keyword is spelled `input`, `output` or `inout` in lower case, and a parameter list adds its parameters exactly when spelled `parameter` or `localparam` |
| Parser.BodyAgreesWithHeader | src/VerilogParser.py:323-351 | a body port declaration registers the same record as the same declaration in the header |
| Parser.BodyParametersAgree | src/VerilogParser.py:355-365 | body parameters are recorded exactly as header parameters |
| Parser.LowerCaseKeywordsAgree | src/VerilogParser.py:333 | for lower-case keywords the source's rule and the corrected rule agree |
| Parser.UpperCaseBodyPortIgnored | src/VerilogParser.py:333-351 | as written, `INPUT a;` in the body lexes as a port keyword but its raw text fails the lower-case check, so the port is ignored; the corrected rule registers it |
| Parser.PreprocessCode | src/VerilogParser.py:583-605 | when the macros are unusable the code is parsed unchanged; otherwise the preprocessed text ends with `endmodule` |
| Parser.PreprocessCodeIgnoresPreamble | src/VerilogParser.py:583-605 | with usable macros the code parsed is the conditionally compiled ports section followed by `endmodule` |
| Blocks.Views | src/vcg_file_processor.py:112-130 | each line is seen with its text and whether it holds `//VCG_BEGIN` and `//VCG_END` anywhere |
| Blocks.LastMarker | src/vcg_file_processor.py:112-130 | the marker found before a line is the last begin or end marker line before it |
| Blocks.ExtractBlocks | src/vcg_file_processor.py:101-134 | the blocks of a file are numbered 0, 1, … in order of their end lines, each holds exactly the lines between the last begin marker and its end marker, and there is one for each line that closes a block |
| Blocks.ExtractCharacterization | src/vcg_file_processor.py:101-134 | blocks are numbered 0, 1, … in order of their end lines; each holds exactly the lines between the last begin marker and its end marker; and a line ends a block exactly when it is an end marker whose last preceding marker is a begin |
| Blocks.ExtractFromInv | src/vcg_file_processor.py:112-132 | the scan keeps the open block, the blocks found and their numbering consistent with the lines read |
| Blocks.OpenStep | src/vcg_file_processor.py:113-117 | after each line the open block, if any, is the one the last marker opened |
| Blocks.BlocksStep | src/vcg_file_processor.py:118-130 | after each line every block found is numbered by position and holds what lies between its markers |
| Blocks.CompleteStep | src/vcg_file_processor.py:118-130 | after each line every line read that closes a block has produced one |
| Blocks.SecondBeginRestarts | src/vcg_file_processor.py:113-117 | a second begin marker before an end discards the lines collected so far |
| Blocks.StrayEndIgnored | src/vcg_file_processor.py:118-130 | an end marker with no open block yields no block |
| Blocks.Uncomment | src/vcg_file_processor.py:141 | a line loses exactly a leading `//` and the whitespace before it when it starts that way, and is otherwise kept |
| Blocks.UncommentRemovesMarker | src/vcg_file_processor.py:141 | `ws//body` becomes `body` |
| Blocks.CleanLines | src/vcg_file_processor.py:136-145 | the cleaned script has no blank line and no more lines than the block |
| Blocks.CleanLinesKeep | src/vcg_file_processor.py:140-143 | every line that is not blank once uncommented is kept |
| Blocks.CleanLinesFrom | src/vcg_file_processor.py:140-143 | every kept line is some block line uncommented |
| Blocks.CleanScriptUnchanged | src/vcg_file_processor.py:136-145 | a script with no blank and no commented-out lines is left as it is |
| Blocks.CleanLinesNoNewline | src/vcg_file_processor.py:140-143 | cleaned lines stay single lines |
| Blocks.PreprocessScript | src/vcg_file_processor.py:136-145 | a block with no line left after clean-up gives the empty script; otherwise the script has one line per kept line, each with its text, shifted left by the smallest indentation among them |
| Blocks.MinIndent | src/vcg_file_processor.py:149-155 | there is no minimum indentation exactly when every line is blank; otherwise it is the smallest indentation of a non-blank line |
| Blocks.FixLineShape | src/vcg_file_processor.py:157-161 | a blank line becomes empty; a non-blank one loses exactly `m` leading whitespace characters and keeps its text |
| Blocks.FixLinesReindent | src/vcg_file_processor.py:157-163 | removing at most each line's own indentation keeps every line's text and shifts every non-blank line left by the same amount |
| Blocks.FixIndentation | src/vcg_file_processor.py:147-163 | text with only blank lines is returned unchanged; otherwise every line keeps its text, blank lines become empty, all lines shift left by the minimum indentation, and some line starts in column 0 |
| Blocks.ReindentedAgain | src/vcg_file_processor.py:147-163 | a re-indented script has minimum indentation 0 and is left alone by another pass |
| Blocks.FixIndentationIdempotent | src/vcg_file_processor.py:147-163 | fixing the indentation twice is fixing it once |
| Blocks.DigitRun | src/vcg_file_processor.py:201 | the digit run read after `VCG_GEN_BEGIN_` is the longest run of digits there |
| Blocks.GenIdFrom | src/vcg_file_processor.py:201-202 | a region number is only read from a line holding `VCG_GEN_BEGIN_` |
| Blocks.Content | src/vcg_file_processor.py:193-196 | a block's content is written, right-stripped, exactly when it is not blank |
| Blocks.Expand | src/vcg_file_processor.py:179-199 | writing back never removes a line |
| Blocks.InjectStep | src/vcg_file_processor.py:179-221 | each line is kept unless it is an unmarked line inside a region; only end lines advance the block counter; an end line not followed by a region gets a new region with its block's content |
| Blocks.Inject | src/vcg_file_processor.py:165-225 | a file with no generated regions gets, after each end line, a new region holding that block's content |
| Blocks.FreshFileExpands | src/vcg_file_processor.py:165-225 | in a file with no generated regions yet, each end line is followed by a new region holding its block's content |
| Blocks.RegionLinesDropped | src/vcg_file_processor.py:220-221 | lines inside an existing region are dropped |
| Blocks.ExistingRegionReplaced | src/vcg_file_processor.py:200-218 | an existing region keeps its marker lines and has its old lines replaced by the content of the block it names |
| Blocks.RegenerateBlock | src/vcg_file_processor.py:179-218 | an end line followed by its own generated region is rewritten to the same lines |
| Blocks.RegenerateLine | src/vcg_file_processor.py:220-221 | an ordinary line before a regenerated rest is kept |
| Blocks.RegenerateUnchanged | src/vcg_file_processor.py:165-225 | writing the same content back into an expanded file gives the same lines |
| Blocks.InjectIdempotent | src/vcg_file_processor.py:165-225 | for a file without regions, the first write-back is the expansion, and writing the same content back again changes nothing |
| Blocks.SplitJoinFlatten | src/vcg_file_processor.py:166-225 | splitting joined content into lines breaks each multi-line entry into its lines |
| Cli.Items | src/vcg.py:39 | the items are the comma-separated pieces, each stripped |
| Cli.Assignment | src/vcg.py:43-51 | an item without `=` defines its name with an empty value |
| Cli.AssignmentAt | src/vcg.py:46-48 | an item is split at its first `=`, into a stripped name and a stripped value |
| Cli.AssignmentSplitsAtFirstEquals | src/vcg.py:47-48 | `name=value`, with no `=` in the name, gives the stripped name and the stripped value, even when the value holds more `=` |
| Cli.ParseMacrosArgument | src/vcg.py:35-53 | an absent or empty argument gives no macros; without any `=` the stripped names are passed as a list; with one, a dict with distinct keys |
| Cli.AssignedMacrosPresent | src/vcg.py:43-51 | every item's name is a key of the dict, and every key is some item's name |
| Cli.LastAssignmentWins | src/vcg.py:44-50 | a name assigned twice keeps its last value |
| Cli.NameListRoundTrip | src/vcg.py:35-53 | a list of plain names joined by commas parses back to that list |
| Cli.NamesDefined | src/VerilogPreprocess.py:40-44 | a list of names always parses, defining exactly the listed names |
| Cli.ArgumentMacrosDefined | src/vcg.py:35-53 | whatever the argument, the preprocessor accepts it and defines exactly the names it mentions; an absent or empty argument defines none |
| Cli.AssignmentsDefined | src/vcg.py:43-51 | the dict form defines exactly the names it mentions |
| Cli.NameListDefined | src/vcg.py:52-53 | the list form defines exactly the names it mentions |
| Engine.AddText | src/vcg_execution_engine.py:35-42 | a text adds an entry exactly when it holds something other than whitespace or holds a newline; the entry is the text without trailing whitespace; earlier entries are kept |
| Engine.AddCode | src/vcg_execution_engine.py:44-50 | generated code is added verbatim exactly when it is not blank |
| Engine.Perform | src/vcg_execution_engine.py:95-139 | a print or generated code appends exactly the entries the output rules give it and leaves the rules alone; a rule declaration appends one rule of its kind, keeps the priorities valid and adds no entry |
| Engine.Execute | src/vcg_execution_engine.py:66-81 | the final output is the entries the script's calls emit, in call order, joined by newlines, whatever came before |
| Engine.PerformAllEmits | src/vcg_execution_engine.py:31-50 | performing calls appends exactly the entries they emit, in order |
| Engine.FinalOutputLines | src/vcg_execution_engine.py:52-53 | the output of single-line entries reads back, line by line, as those entries |
| Engine.Start | src/vcg_execution_engine.py:66-71 | every execution starts with no rules of any kind and no output |
| Engine.NoLeakBetweenBlocks | src/vcg_execution_engine.py:66-71 | two executions of the same calls give the same output whatever state each started from, because `execute` resets the rules and the output first |
| Engine.RulesDoNotPrint | src/vcg_execution_engine.py:110-128 | `Connect`, `ConnectParam` and `WiresRule` write no entry: with each call's generated code given, the rules in force change no entry (how rules shape that code is stated in `Instance` and `Wires`) |
| Engine.OutputsGrow | src/vcg_execution_engine.py:31-50 | output entries are only ever added at the end |
| Engine.PrintLines | src/vcg_execution_engine.py:132-139 | `print()` adds an empty line, and `print(x)` adds `x` without trailing whitespace |

## Left out

- File reading, `preprocess_file`, `process_file` and the `_parse_verilog_file` wrappers of the generators: I/O. The model starts from the file's text, the parsed module summary and the ports.
- The Python evaluation behind `${...}`: it runs `eval` on user text. It is the parameter `ev`, whose failure is `None`; the fallback on failure is modelled.
- The arithmetic folding in `simplify_numeric_parts` (src/VerilogAst.py:387-401): it calls `eval`. It is the parameter `arith`, and only its text/value pairing is modelled.
- `exec` of the block scripts: a script is represented by the sequence of calls it makes (`Engine.Call`). The code an `Instance` or `WiresDef` call generates is given with the call, because reading the target file is I/O.
- `print` with a `file=` argument: it goes to the real `print`, not to the output.
- The ply lexer and parser automata, precedence tables and error productions: only the token actions and the grammar actions are modelled. The expression tree `Parser.Expr` stands for what the grammar recognised.
- How the AST builder reconciles header and body port declarations (`register_port_from_list`, `register_port_from_body`): that code is not part of this model. The parser actions are modelled up to the records they hand over.
- The AST visitor machinery and the code generator: the model goes from the module declarations straight to the summary (`Signature.ExtractInfo`).
- `update_macros`, `clear_macros` and `get_macros` (src/VerilogPreprocess.py:275-283): dict mutation with no logic beyond `_parse_macros`, which is modelled.
- `set_alignment` and `set_base_spacing`: the alignment and the base spacing are parameters (`align`, `base`).
- The connect manager, logging, exceptions, argparse and `main`.
- Lexer.EventLines: line numbers assume single-line tokens. A string literal spanning lines does not advance the line count in the source either, and the model's pieces hold no such token.
- Strings are ASCII: `\s`, `\d`, `isdigit`, `lower` and `upper` are their ASCII versions. Wildcard `.` excludes only `\n`, as in Python without `re.DOTALL`.
- Blocks.ExtractCharacterization: the injection pass counts every `//VCG_END` line, while extraction only counts those that close a block. A stray end marker therefore shifts later region numbers. The model reproduces this and does not claim more.
- Preprocess.ScanStep: the port scanner drops body lines between declarations, including conditional-compilation directives there. The model reproduces this as written.
- Parser.GroupingLost: parentheses are not kept in rendered expressions, as written. This is stated as behaviour, not corrected.
- Signature.ParseExpression: uses the corrected reading, in which the letter right after the apostrophe picks the base. It agrees with the source's reading, `Signature.ParseExpressionAsWritten`, when the digits hold none of `d`, `h`, `b`, `o` (`Signature.AsWrittenAgrees`); a hex literal such as `8'hd0` is where they differ.
- Signature.BasedLiteralDispatch: states the corrected reading; the same agreement holds.
- Signature.PyInt: reads ASCII text only. The non-ASCII digits and whitespace that Python's `int()` also accepts are not modelled, because the strings carry no Unicode character classes.
- Signature.SimplifyNumeric: reads bounds with the corrected number parser, so it agrees with the source only on bounds that `Signature.AsWrittenAgrees` covers.
- Signature.CreateRange: built on `Signature.SimplifyNumeric`; the same limit applies.
- Parser.Render: writes a string primary with its value escaped, where the source writes the value as it is. The two agree on values without a quote, backslash, newline or tab (`Parser.StringPrimaryAgrees`).
- Parser.HeaderParameter: records the default through `Parser.Render`; the same limit applies.
- Parser.ParamBodyRecords: records the values through `Parser.Render`; the same limit applies.
- Wires.DeclSpacing: puts at least one space after a bare `wire`, where the source puts `base-4`, none for `base <= 4`. The two agree when there is a range or `base > 4` (`Wires.SpacingAgrees`), which includes the default spacing of 15.
- Wires.Declaration: uses `Wires.DeclSpacing`; the same agreement holds. `Wires.DeclarationAsWritten` is the source's version.
- Wires.SingleWire: builds declarations with `Wires.Declaration`; the same agreement holds.
- Wires.DefaultWire: builds its declaration with `Wires.Declaration`; the same agreement holds.
- Wires.GreedyFallback: stated of `Wires.SingleWire`; the same agreement holds.
- Wires.RuleDecides: stated of `Wires.SingleWire`; the same agreement holds.
- Wires.Declarations: built from `Wires.SingleWire`; the same agreement holds.
- Wires.GenerateWires: built from `Wires.Declarations`; the same agreement holds.
- Wires.GreedyWithoutRules: stated of `Wires.Declarations`; the same agreement holds.

## Findings

| source | as written | input that shows it | evidently intended | confidence | as-written member | corrected member |
|---|---|---|---|---|---|---|
| src/VerilogAst.py:373-375 | a based literal is read in decimal whenever it contains `d` anywhere, including hex digits | `8'hd0` reads as 0 | the base letter after `'` decides: 208 | not executed | Signature.HexDigitReadAsDecimalBase | Signature.BasedLiteralRoundTrip |
| src/vcg_wires_manager.py:140-142 | a declaration without a range is padded with `base-4` spaces, which is none when `base <= 4` | `base = 4`, name `clk` gives `wireclk;` | at least one space: `wire clk;` | not executed | Wires.NarrowSpacingJoinsName | Wires.DeclarationLayout |
| src/VerilogLexer.py:240-242 | escapes are undone by successive replacements, `\\` before `\n` | the literal `"\\n"` gives a newline | a backslash followed by `n` | not executed | Lexer.EscapedBackslashBecomesNewline | Lexer.StringLiteralRoundTrip |
| src/VerilogParser.py:470-472 | a string primary is re-quoted without escaping its value | the value `a"b` is written as `"a"b"` | an escaped body that lexes back to `a"b` | not executed | Parser.StringPrimaryAsWrittenBreaks | Parser.StringPrimaryReadsBack |
| src/VerilogParser.py:333 | a body port declaration is recognised by comparing the raw keyword text with lower-case names | `INPUT a;` in the body, which the lexer accepts as a keyword, registers nothing | the same case-insensitive treatment as the lexer and the header | not executed | Parser.UpperCaseBodyPortIgnored | Parser.BodyAgreesWithHeader |
