# Gadgeter load-library injector, modelled in Dafny

Gadgeter rewrites an Android application so that it loads a native library
(by default `frida-gadget`) as early as possible. After the application's
dex file has been disassembled to smali text, `GadgetInjector.injectLoadLibrary`
edits the smali of one class:

* it picks a target method by fallback level: 1 `attachBaseContext`,
  2 `<clinit>`, 3 `onCreate`; any other level returns false;
* it finds the first line that contains both `.method` and the target name;
* at level 2 with no such line it inserts a whole static initializer that
  loads the library, right after the first `.source`/`.implements`/`.super`
  line (or at index 1);
* otherwise it raises the method's `.registers` count to at least one more
  than the registers its parameters take (`getParamCount`), or, without a
  `.registers` line, its `.locals` count to at least 1; the raise is a text
  replacement of `".registers $current"` (or `".locals $current"`), so it
  happens only when the directive line contains the count exactly as Kotlin
  prints it, and otherwise the line stays as it was;
* and it inserts a blank line, `const-string v0, "<lib>"` and
  `invoke-static {v0}, Ljava/lang/System;->loadLibrary(...)V` before the
  method's first instruction (`findFirstInstruction`).

The model works on the class's lines as a `seq<string>`. The file is an
`Option<seq<string>>` (None when it does not exist) and a call ends in an
`Outcome`: `NotPatched` (false, nothing written), `Patched(lines)` (true,
the file rewritten with the lines joined by `"\n"`), `IndexOutOfBounds`
(`lines.add` throws) or `Diverges` (`getParamCount` never returns).

Modules, one per component:

* `Strings` (strings.dfy): the Kotlin string functions the injector calls
  (`trim`, `trimStart`, `contains`, `startsWith`, `removePrefix`,
  `substringAfter`/`substringBefore`, `indexOf`, `replace`, `toIntOrNull`,
  `Int.toString`), with the JVM's whitespace set and the 32-bit `Int` range,
  over strings of Unicode scalar values rather than UTF-16 code units.
* `LineList` (lines.dfy): `indexOfFirst` with the three line tests used,
  `add(index, line)` and `joinToString("\n")`.
* `Signature` (signature.dfy): `getParamCount` as a loop method proved
  against a recursive scan `SlotsFrom`, plus the termination analysis of the
  source's loop and its relation to real Dalvik register widths.
* `Registers` (registers.dfy): the `.registers`/`.locals` budget step.
* `Insertion` (insertion.dfy): `findFirstInstruction` as a loop method
  proved against `FirstInstruction`.
* `Injector` (injector.dfy): `injectLoadLibrary` as a method proved equal to
  the specification function `Injection`, and the properties of the whole call.

The model follows the code in these places:

* The search for `.registers`/`.locals` runs to the end of the file; it does
  not stop at `.end method`. So when a method has no directive, a later
  method's directive can be raised. `findFirstInstruction` does stop at
  `.end method`, because it takes that line for an instruction.
* When neither directive is found, the call still inserts the payload.
* The payload is three lines, a blank line first.
* The synthesized `<clinit>` is inserted as one list element that holds line
  breaks. On an empty file that insertion throws.
* A directive with text after its count (`.registers 2 # note`) does not
  parse, so its count is taken as the default 2. When the printed count
  starts with 2, the replace then rewrites only its first digit, and running
  the step again makes the count longer ("20", then "200").

## Model

| member | source | states |
|---|---|---|
| Strings.TrimStartIsSuffix | app/src/main/java/top/wsdx233/gadgeter/patcher/GadgetInjector.kt:58 | `trimStart` keeps a suffix that does not start with whitespace and drops only whitespace |
| Strings.TrimEndIsPrefix | app/src/main/java/top/wsdx233/gadgeter/patcher/GadgetInjector.kt:60 | the trailing half of `trim` keeps a prefix that does not end in whitespace and drops only whitespace |
| Strings.ContainsIff | app/src/main/java/top/wsdx233/gadgeter/patcher/GadgetInjector.kt:37 | `contains` holds exactly when the text occurs at some position of the line |
| Strings.RemovePrefix | app/src/main/java/top/wsdx233/gadgeter/patcher/GadgetInjector.kt:60 | `removePrefix` strips the keyword when the text starts with it and leaves the text whole otherwise |
| Strings.IndexOfChar | app/src/main/java/top/wsdx233/gadgeter/patcher/GadgetInjector.kt:103 | `indexOf(';', i)` is the first position at or after `i` holding `;`, or -1 when there is none |
| Strings.IndexOfFirstOccurrence | app/src/main/java/top/wsdx233/gadgeter/patcher/GadgetInjector.kt:98 | a character whose first occurrence is at `k` is found at `k` |
| Strings.SubstringAfter | app/src/main/java/top/wsdx233/gadgeter/patcher/GadgetInjector.kt:98 | the text after the first `(`, or the whole line when it has none |
| Strings.SubstringBefore | app/src/main/java/top/wsdx233/gadgeter/patcher/GadgetInjector.kt:98 | the text before the first `)`: a prefix free of `)` that ends right at the first `)`, or the whole text when it has none |
| Strings.ReplaceAll | app/src/main/java/top/wsdx233/gadgeter/patcher/GadgetInjector.kt:63 | `replace` leaves a line that does not contain the pattern unchanged; `ReplaceAtFirst` states what it does otherwise |
| Strings.ReplaceAtFirst | app/src/main/java/top/wsdx233/gadgeter/patcher/GadgetInjector.kt:63 | at the first occurrence of the pattern, `replace` keeps the text before it, puts the replacement in its place and goes on with the text after it |
| Strings.NotContainsLead | app/src/main/java/top/wsdx233/gadgeter/patcher/GadgetInjector.kt:63 | a line that lacks the pattern's first character does not contain the pattern |
| Strings.LeadMismatch | app/src/main/java/top/wsdx233/gadgeter/patcher/GadgetInjector.kt:63 | the pattern does not occur at a position whose character differs from its first character |
| Strings.ReplaceAfterWhitespace | app/src/main/java/top/wsdx233/gadgeter/patcher/GadgetInjector.kt:63 | on indentation followed by exactly the pattern, `replace` rewrites only the pattern |
| Strings.SignedDigits | app/src/main/java/top/wsdx233/gadgeter/patcher/GadgetInjector.kt:60 | a digit string, negated when signed `-`, yields its value exactly when it is all digits and the value fits the `Int` range |
| Strings.ParseInt | app/src/main/java/top/wsdx233/gadgeter/patcher/GadgetInjector.kt:60 | `toIntOrNull` reads plain digits, or `+`/`-` and at least one digit, as their value when it fits the `Int` range (leading zeros allowed), and gives null on anything else |
| Strings.NatToString | app/src/main/java/top/wsdx233/gadgeter/patcher/GadgetInjector.kt:63 | the printed digits of a count read back as that count; there is no leading zero, and there is one digit exactly below 10 |
| Strings.IntToString | app/src/main/java/top/wsdx233/gadgeter/patcher/GadgetInjector.kt:63 | a printed `Int` is non-empty and starts with a digit or `-`, with `-` exactly for negative numbers; with `NatToString` and `ParseIntToString` this fixes the text |
| Strings.ParseIntToString | app/src/main/java/top/wsdx233/gadgeter/patcher/GadgetInjector.kt:60-63 | reading back a printed `Int` gives the same number (`"$n".toIntOrNull() == n`) |
| LineList.IndexOfFirst | app/src/main/java/top/wsdx233/gadgeter/patcher/GadgetInjector.kt:36-38 | `indexOfFirst` returns the first passing index, or -1 exactly when no line passes |
| LineList.IndexOfFirstUpdate | app/src/main/java/top/wsdx233/gadgeter/patcher/GadgetInjector.kt:63 | rewriting the found line with another passing line leaves the search result where it was |
| LineList.Insert | app/src/main/java/top/wsdx233/gadgeter/patcher/GadgetInjector.kt:78 | `add(index, line)` puts the line at `index` and shifts the rest up by one, keeping both halves |
| Signature.SlotsFrom | app/src/main/java/top/wsdx233/gadgeter/patcher/GadgetInjector.kt:101-107 | the scan from position `i` counts at most one slot per remaining character |
| Signature.ParamCount | app/src/main/java/top/wsdx233/gadgeter/patcher/GadgetInjector.kt:96-109 | the count is at least the receiver slot and at most the parameter text's length plus one |
| Signature.GetParamCount | app/src/main/java/top/wsdx233/gadgeter/patcher/GadgetInjector.kt:96-109 | the function returns `ParamCount` of the declaration line, None where the source's loop restarts at 0 |
| Signature.ScanParams | app/src/main/java/top/wsdx233/gadgeter/patcher/GadgetInjector.kt:100-108 | the `while` loop, started from the receiver count, returns the scan's count plus that start, or None where it would restart |
| Signature.SlotsDefinedIff | app/src/main/java/top/wsdx233/gadgeter/patcher/GadgetInjector.kt:103 | the scan yields a count exactly when every `L` it can meet has a later `;` |
| Signature.ScanProgresses | app/src/main/java/top/wsdx233/gadgeter/patcher/GadgetInjector.kt:101-107 | when the scan yields a count, the source's position grows by at least one per pass until the end |
| Signature.ScanStuck | app/src/main/java/top/wsdx233/gadgeter/patcher/GadgetInjector.kt:103 | otherwise the source's position stays below the end for ever (the reset to 0) |
| Signature.ScanExitsIff | app/src/main/java/top/wsdx233/gadgeter/patcher/GadgetInjector.kt:101-107 | the source's loop exits exactly when every `L` in the parameters has a later `;` |
| Signature.IndexOfShift | app/src/main/java/top/wsdx233/gadgeter/patcher/GadgetInjector.kt:103 | `indexOf(';')` inside a prefix is unaffected by what follows it |
| Signature.SlotsShift | app/src/main/java/top/wsdx233/gadgeter/patcher/GadgetInjector.kt:101-107 | a fully scanned prefix adds its count to the count of what follows |
| Signature.SlotsOfType | app/src/main/java/top/wsdx233/gadgeter/patcher/GadgetInjector.kt:102-106 | each well-formed type descriptor (primitive, `L…;`, any `[` depth) counts exactly one |
| Signature.SlotsOfEncoding | app/src/main/java/top/wsdx233/gadgeter/patcher/GadgetInjector.kt:101-107 | well-formed parameter descriptors count one slot per parameter |
| Signature.WideParamsUndercounted | app/src/main/java/top/wsdx233/gadgeter/patcher/GadgetInjector.kt:105 | `J` and `D` count one slot although a Dalvik `long`/`double` takes two registers |
| Signature.SlotsAndWidths | app/src/main/java/top/wsdx233/gadgeter/patcher/GadgetInjector.kt:105 | the count falls short of the true register width by exactly the number of `J`/`D` parameters |
| Signature.NoParenInType | app/src/main/java/top/wsdx233/gadgeter/patcher/GadgetInjector.kt:98 | a well-formed type descriptor holds no `)` |
| Signature.NoParenInEncoding | app/src/main/java/top/wsdx233/gadgeter/patcher/GadgetInjector.kt:98 | well-formed parameter descriptors hold no `)`, so `substringBefore(")")` keeps all of them |
| Signature.ParamCountOfDeclaration | app/src/main/java/top/wsdx233/gadgeter/patcher/GadgetInjector.kt:97-99 | for `head(params)tail` the result is the number of parameters plus 1 unless "static" occurs anywhere on the line |
| Registers.DirectiveIndex | app/src/main/java/top/wsdx233/gadgeter/patcher/GadgetInjector.kt:58-67 | the first line from the declaration to the end of the file that passes the `trimStart().startsWith(keyword)` test, with no passing line before it; one below the declaration exactly when none passes |
| Registers.BudgetLine | app/src/main/java/top/wsdx233/gadgeter/patcher/GadgetInjector.kt:58-75 | the line the budget step may rewrite lies in the method's search range, or there is none |
| Registers.Raise | app/src/main/java/top/wsdx233/gadgeter/patcher/GadgetInjector.kt:62-64 | the conditional rewrite keeps the length and every other line |
| Registers.AdjustRegisters | app/src/main/java/top/wsdx233/gadgeter/patcher/GadgetInjector.kt:58-75 | the step fails to return exactly when a `.registers` line exists and `getParamCount` never returns; the length is kept |
| Registers.RegistersStep | app/src/main/java/top/wsdx233/gadgeter/patcher/GadgetInjector.kt:59-64 | the `.registers` branch keeps the length |
| Registers.LocalsStep | app/src/main/java/top/wsdx233/gadgeter/patcher/GadgetInjector.kt:68-73 | the `.locals` branch keeps the length |
| Registers.RaiseNeedsPattern | app/src/main/java/top/wsdx233/gadgeter/patcher/GadgetInjector.kt:63 | when the line lacks `".registers $current"` as printed (other spacing, or the default 2/0 was used), nothing is rewritten |
| Registers.AdjustTouchesOneLine | app/src/main/java/top/wsdx233/gadgeter/patcher/GadgetInjector.kt:58-75 | only the chosen directive line can change; with neither directive no line changes |
| Registers.TrimDirective | app/src/main/java/top/wsdx233/gadgeter/patcher/GadgetInjector.kt:60 | trimming an indented directive leaves keyword, space and number |
| Registers.DirectiveParses | app/src/main/java/top/wsdx233/gadgeter/patcher/GadgetInjector.kt:60 | the count read from a directive written as smali prints it is the number written there |
| Registers.DirectiveRewrites | app/src/main/java/top/wsdx233/gadgeter/patcher/GadgetInjector.kt:63 | on such a directive the `replace` puts the new number in place of the old one and changes nothing else |
| Registers.DirectiveLineMatches | app/src/main/java/top/wsdx233/gadgeter/patcher/GadgetInjector.kt:58 | such a directive passes the `trimStart().startsWith(keyword)` test |
| Registers.RaiseDirective | app/src/main/java/top/wsdx233/gadgeter/patcher/GadgetInjector.kt:62-64 | raising such a directive leaves exactly that directive with the new count |
| Registers.RegistersBudget | app/src/main/java/top/wsdx233/gadgeter/patcher/GadgetInjector.kt:59-64 | the `.registers` count becomes `max(current, paramCount + 1)`: never lower, always above the parameters, on a directive written the usual way (indentation, keyword, one space, the printed count) |
| Registers.RegistersIdempotent | app/src/main/java/top/wsdx233/gadgeter/patcher/GadgetInjector.kt:59-64 | a count already at least `paramCount + 1` leaves the whole list unchanged |
| Registers.RegistersIndexNext | app/src/main/java/top/wsdx233/gadgeter/patcher/GadgetInjector.kt:58 | a `.registers` line right after a declaration that is not one is the line found |
| Registers.RegistersIndexKept | app/src/main/java/top/wsdx233/gadgeter/patcher/GadgetInjector.kt:58 | writing a `.registers` line over the found one does not move the search |
| Registers.BudgetTwiceIsOnce | app/src/main/java/top/wsdx233/gadgeter/patcher/GadgetInjector.kt:58-64 | the budget step is idempotent: running it on its own result changes nothing more, on a directive written the usual way (indentation, keyword, one space, the printed count) |
| Registers.BudgetFixed | app/src/main/java/top/wsdx233/gadgeter/patcher/GadgetInjector.kt:59-64 | a directive whose count exceeds the parameter count is left as it is, on a directive written the usual way (indentation, keyword, one space, the printed count) |
| Registers.LocalsBudget | app/src/main/java/top/wsdx233/gadgeter/patcher/GadgetInjector.kt:65-75 | without `.registers`, the `.locals` count becomes `max(current, 1)`, on a directive written the usual way (indentation, keyword, one space, the printed count) |
| Registers.CommentedCount | app/src/main/java/top/wsdx233/gadgeter/patcher/GadgetInjector.kt:60 | a directive with text after its count does not parse as a number, so the default is used |
| Registers.CommentedRewrite | app/src/main/java/top/wsdx233/gadgeter/patcher/GadgetInjector.kt:63 | on such a line the replace of `".registers $current"` rewrites the text at the head of the written count and keeps the rest of the count and the trailing text |
| Registers.CommentedMatches | app/src/main/java/top/wsdx233/gadgeter/patcher/GadgetInjector.kt:58 | such a line still passes the `trimStart().startsWith(keyword)` test |
| Registers.CommentedStepAt | app/src/main/java/top/wsdx233/gadgeter/patcher/GadgetInjector.kt:59-64 | the `.registers` branch on such a line whose count starts with 2 puts `paramCount + 1` in place of that first digit |
| Registers.CommentedRegistersStep | app/src/main/java/top/wsdx233/gadgeter/patcher/GadgetInjector.kt:59-64 | the same for the `.registers` line the search finds from the declaration |
| Registers.CommentedRegistersAgain | app/src/main/java/top/wsdx233/gadgeter/patcher/GadgetInjector.kt:59-64 | a second step on the line the first one wrote puts `paramCount + 1` in place of its first digit again |
| Registers.CommentedRegistersGrow | app/src/main/java/top/wsdx233/gadgeter/patcher/GadgetInjector.kt:59-64 | with text after the count the budget step is not idempotent: a `.registers 2 # …` line with a printed `paramCount + 1` of `d` becomes `d`, then a longer count of `d` followed by the rest of `d` |
| Registers.DeclaredCount | app/src/main/java/top/wsdx233/gadgeter/patcher/GadgetInjector.kt:60 | the count read from a line stays in the `Int` range; `DirectiveParses` and `CommentedCount` state what it reads |
| Registers.Rewrite | app/src/main/java/top/wsdx233/gadgeter/patcher/GadgetInjector.kt:63 | a line without `".registers $current"` is left as it is; `DirectiveRewrites` and `CommentedRewrite` state the rewrite itself |
| Insertion.NextInstruction | app/src/main/java/top/wsdx233/gadgeter/patcher/GadgetInjector.kt:88-91 | the first line at or after `i` that is non-blank and not skip-prefixed, or -1 when every later line is skipped |
| Insertion.FirstInstruction | app/src/main/java/top/wsdx233/gadgeter/patcher/GadgetInjector.kt:86-94 | the result lies in `(methodStart, size]`; it is the first later instruction line with only skipped lines before it, or `methodStart + 1` when no later line is one |
| Insertion.FindFirstInstruction | app/src/main/java/top/wsdx233/gadgeter/patcher/GadgetInjector.kt:86-94 | the loop with its early return computes `FirstInstruction` |
| Injector.Target | app/src/main/java/top/wsdx233/gadgeter/patcher/GadgetInjector.kt:29-34 | a target method exists exactly for levels 1, 2 and 3 |
| Injector.ClinitOffset | app/src/main/java/top/wsdx233/gadgeter/patcher/GadgetInjector.kt:41 | the static initializer goes right after the first `.source`/`.implements`/`.super` line (no header line comes before it), or at 1 when there is none |
| Injector.Splice | app/src/main/java/top/wsdx233/gadgeter/patcher/GadgetInjector.kt:77-80 | the payload makes the list three lines longer |
| Injector.InjectLoadLibrary | app/src/main/java/top/wsdx233/gadgeter/patcher/GadgetInjector.kt:25-84 | the step-by-step method ends in the outcome `Injection` specifies, for every file, level and name |
| Injector.BudgetRegisters | app/src/main/java/top/wsdx233/gadgeter/patcher/GadgetInjector.kt:58-75 | the in-place edit of the list gives `AdjustRegisters` |
| Injector.InsertPayload | app/src/main/java/top/wsdx233/gadgeter/patcher/GadgetInjector.kt:77-80 | the three `add` calls at the first instruction give `Splice` at `FirstInstruction` |
| Injector.ThreeInserts | app/src/main/java/top/wsdx233/gadgeter/patcher/GadgetInjector.kt:78-80 | adding the load, then the const-string, then the blank line at one index leaves them in reading order blank, const-string, load |
| Injector.SpliceRoundTrip | app/src/main/java/top/wsdx233/gadgeter/patcher/GadgetInjector.kt:77-80 | the payload sits at the insertion index, and taking its three lines out gives back the list |
| Injector.NotPatchedIff | app/src/main/java/top/wsdx233/gadgeter/patcher/GadgetInjector.kt:26-55 | false without a write exactly for a missing file, a level outside 1-3, or no target declaration at level 1 or 3 |
| Injector.ClinitSynthesized | app/src/main/java/top/wsdx233/gadgeter/patcher/GadgetInjector.kt:40-53 | level 2 without `<clinit>`: an empty file throws; otherwise exactly one element, the block, is inserted at `ClinitOffset` and removing it gives back the file |
| Injector.InsertRoundTrip | app/src/main/java/top/wsdx233/gadgeter/patcher/GadgetInjector.kt:42 | `add(at, x)` puts `x` at `at`, and removing that one element gives back the list |
| Injector.MethodPatched | app/src/main/java/top/wsdx233/gadgeter/patcher/GadgetInjector.kt:58-83 | a found method ends three lines longer with the payload at its first instruction; removing it gives the budgeted lines, which differ from the input at most at the directive |
| Injector.DivergesIff | app/src/main/java/top/wsdx233/gadgeter/patcher/GadgetInjector.kt:58-61 | the call never returns exactly when the target method is found, has a `.registers` line, and `getParamCount` never returns |
| Injector.LongerNameMatches | app/src/main/java/top/wsdx233/gadgeter/patcher/GadgetInjector.kt:37 | a `.method` line naming any method whose name starts with the target (`onCreateView` for `onCreate`) is taken as the target |
| Injector.ClinitSelfConsistent | app/src/main/java/top/wsdx233/gadgeter/patcher/GadgetInjector.kt:42-51 | the synthesized block satisfies the budget step unchanged, and its `const-string` line is where `findFirstInstruction` points |
| Injector.ClinitTakesNoRegisters | app/src/main/java/top/wsdx233/gadgeter/patcher/GadgetInjector.kt:44 | the synthesized declaration is static with no parameters: `getParamCount` gives 0 |
| Injector.ClinitIsStatic | app/src/main/java/top/wsdx233/gadgeter/patcher/GadgetInjector.kt:44 | the synthesized declaration contains "static" |
| Injector.ClinitRegistersLine | app/src/main/java/top/wsdx233/gadgeter/patcher/GadgetInjector.kt:45 | the block's `.registers 1` is the directive the budget step reads, reads back 1, and is skipped by the finder |
| Injector.ClinitFirstLines | app/src/main/java/top/wsdx233/gadgeter/patcher/GadgetInjector.kt:44-45 | a `.registers` line right below the synthesized declaration is the one the budget step finds |
| Injector.RegistersOneLine | app/src/main/java/top/wsdx233/gadgeter/patcher/GadgetInjector.kt:45 | `    .registers 1` is a four-space-indented directive with count 1 |
| Injector.DeclarationIsNoDirective | app/src/main/java/top/wsdx233/gadgeter/patcher/GadgetInjector.kt:44 | the synthesized declaration line is not itself taken for a `.registers` line |
| Injector.DirectiveIsSkipped | app/src/main/java/top/wsdx233/gadgeter/patcher/GadgetInjector.kt:87-91 | a `.registers` directive is never taken for an instruction |
| Injector.ConstStringIsInstruction | app/src/main/java/top/wsdx233/gadgeter/patcher/GadgetInjector.kt:46 | the `const-string` line counts as an instruction whatever the library name |
| Injector.InstructionAfterIndent | app/src/main/java/top/wsdx233/gadgeter/patcher/GadgetInjector.kt:89-91 | an indented line starting with a lower-case ASCII letter (`a`-`z`) and ending in a non-blank is an instruction |
| Injector.EndMethodIsInstruction | app/src/main/java/top/wsdx233/gadgeter/patcher/GadgetInjector.kt:87-91 | an (indented) `.end method` line is not blank and has no skipped prefix, so the finder stops at it |
| Injector.PayloadBeforeEndMethod | app/src/main/java/top/wsdx233/gadgeter/patcher/GadgetInjector.kt:86-94 | the payload position never lies past the `.end method` of the method the search starts in |
| Injector.NotStartsWith | app/src/main/java/top/wsdx233/gadgeter/patcher/GadgetInjector.kt:91 | a line that differs from a prefix at some position does not start with it |
| Injector.Injection | app/src/main/java/top/wsdx233/gadgeter/patcher/GadgetInjector.kt:25-84 | the outcome of the whole call: a write only for an existing file, always a longer one; a throw only at level 2 on an empty file; divergence only at levels 1-3. `NotPatchedIff`, `ClinitSynthesized`, `MethodPatched`, `DivergesIff` and `InjectLoadLibrary` state the rest |
| Injector.SynthesizeClinit | app/src/main/java/top/wsdx233/gadgeter/patcher/GadgetInjector.kt:40-53 | the synthesized initializer throws exactly on an empty file; otherwise the list gains one element, the block, at `ClinitOffset` |
| Injector.PatchMethod | app/src/main/java/top/wsdx233/gadgeter/patcher/GadgetInjector.kt:58-83 | a found method is either patched, three lines longer, or the call never returns |
| Signature.Params | app/src/main/java/top/wsdx233/gadgeter/patcher/GadgetInjector.kt:98 | the parameter text holds no `)`; `NoParenInEncoding` and `ParamCountOfDeclaration` state what it keeps |
| Signature.ReceiverSlots | app/src/main/java/top/wsdx233/gadgeter/patcher/GadgetInjector.kt:99 | one receiver register unless "static" occurs on the line; `ParamCountOfDeclaration` and `ClinitTakesNoRegisters` state its use |
| Injector.ClinitLines | app/src/main/java/top/wsdx233/gadgeter/patcher/GadgetInjector.kt:42-51 | the lines of the synthesized `<clinit>`; `ClinitSelfConsistent`, `ClinitRegistersLine` and `ClinitFirstLines` state what they hold |
| Injector.ClinitBlock | app/src/main/java/top/wsdx233/gadgeter/patcher/GadgetInjector.kt:42-51 | those lines joined by line breaks into one element; `ClinitSynthesized` states where it goes |
| Injector.Payload | app/src/main/java/top/wsdx233/gadgeter/patcher/GadgetInjector.kt:78-80 | blank line, `const-string`, `loadLibrary` in reading order; `ThreeInserts` and `SpliceRoundTrip` state it |
| LineList.JoinLines | app/src/main/java/top/wsdx233/gadgeter/patcher/GadgetInjector.kt:82 | `joinToString("\n")`: the written text of the `Patched` lines |
| LineList.Matches | app/src/main/java/top/wsdx233/gadgeter/patcher/GadgetInjector.kt:37 | the three line tests; `IndexOfFirst` and `LongerNameMatches` state their use |
| Insertion.IsInstruction | app/src/main/java/top/wsdx233/gadgeter/patcher/GadgetInjector.kt:89-91 | a non-blank trimmed line without a skipped prefix; `FirstInstruction`, `EndMethodIsInstruction` and `InstructionAfterIndent` state it |
| Insertion.HasSkipPrefix | app/src/main/java/top/wsdx233/gadgeter/patcher/GadgetInjector.kt:87 | the seven skipped prefixes; `DirectiveIsSkipped` states it for directives |
| Strings.Trim | app/src/main/java/top/wsdx233/gadgeter/patcher/GadgetInjector.kt:60 | `trim`; `TrimStartIsSuffix` and `TrimEndIsPrefix` state what it drops |
| Strings.TrimStart | app/src/main/java/top/wsdx233/gadgeter/patcher/GadgetInjector.kt:58 | `trimStart`; `TrimStartIsSuffix` states what it drops |
| Strings.StartsWith | app/src/main/java/top/wsdx233/gadgeter/patcher/GadgetInjector.kt:41 | `startsWith`; `NotStartsWith` states its negative case |
| Strings.Contains | app/src/main/java/top/wsdx233/gadgeter/patcher/GadgetInjector.kt:37 | `contains`; `ContainsIff` states it as an occurrence at some position |

## Left out

- `disassembleDex` and `reassembleDex` (lines 13-23): calls into baksmali and smali, which are not part of this model.
- File access in `injectLoadLibrary` (`exists`, `readLines`, `writeText`, lines 26-27, 52, 82): the file is a parameter (its lines, or None when it does not exist) and the written text is `JoinLines` of the `Patched` lines; how `readLines` splits `\r\n` and `\r`, and that the written file loses a final line break, are not modelled.
- Injector.ClinitLines: the `trimIndent` of the template is applied by hand (common indent 0, blank first and last lines dropped, the 16-space lines kept); a `\r` inside the library name, which `trimIndent` would turn into a line break, is not modelled.
- Strings.ParseInt: `toIntOrNull` also accepts non-ASCII Unicode decimal digits; the model reads ASCII digits only.
- Signature.GetParamCount: Kotlin strings are UTF-16 code units while the model's `char` is a Unicode scalar value, so a parameter character outside the Basic Multilingual Plane (such as `𝐀`) is two code units that the source counts as two slots and the model as one.
- Signature.GetParamCount: the source's endless loop is modelled as a None result (and the `Diverges` outcome), with the loop's trajectory proved never to exit in that case (`ScanExitsIff`); `count` wrapping past 2^31 (a declaration of over two billion characters) is not modelled.
- Registers.AdjustRegisters: `getParamCount(...) + 1` is not wrapped at the `Int` maximum, which needs a declaration of over two billion characters.
- Strings.SubstringAfter: `substringAfter("(")` and `substringBefore(")")` are modelled with a one-character delimiter, the only form the source uses.
- Whether the patched smali is valid Dalvik code (that `v0` is free, that the assembler accepts the result) is outside the text transformation.
- The rest of the application (`GadgetDownloader`, `ApkSignerUtil`, `AppExtractor`, the Compose screens and navigation): network, signing and platform calls, not part of this model.
