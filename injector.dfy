/**
 * The load-library injector (`injectLoadLibrary`): given the lines of one
 * class's smali disassembly, it either splices a `System.loadLibrary` call
 * into the first instructions of a chosen method, or, for the static
 * initializer level, adds a whole `<clinit>` method that makes the call.
 */
module Injector {
  import opened Wrappers
  import opened Strings
  import opened LineList
  import opened Signature
  import opened Registers
  import opened Insertion

  /**
   * How a call ends. `NotPatched`: it returns false and the file is not
   * written. `Patched(lines)`: it returns true and the file is rewritten as
   * `JoinLines(lines)`. `IndexOutOfBounds`: `lines.add` throws before any
   * write. `Diverges`: `getParamCount` never returns.
   */
  datatype Outcome = NotPatched | Patched(lines: seq<string>) | IndexOutOfBounds | Diverges

  /** The method name searched for at each fallback level; None for any other level. */
  function Target(level: int): (r: Option<string>)
    ensures r.Some? <==> 1 <= level <= 3
  {
    if level == 1 then Some("attachBaseContext")
    else if level == 2 then Some("<clinit>")
    else if level == 3 then Some("onCreate")
    else None
  }

  const LoadLibraryLine: string := "    invoke-static {v0}, Ljava/lang/System;->loadLibrary(Ljava/lang/String;)V"

  function ConstStringLine(libName: string): string {
    "    const-string v0, \"" + libName + "\""
  }

  /** The three lines spliced into an existing method, top to bottom. */
  function Payload(libName: string): seq<string> {
    ["", ConstStringLine(libName), LoadLibraryLine]
  }

  const PaddingLine: string := "                "
  /** The declaration of the synthesized method; `ClinitIsStatic` finds the word "static" at position 8. */
  const ClinitHead: string := ".method " + "static" + " constructor <clinit>"
  const ClinitDeclaration: string := ClinitHead + "()V"

  /**
   * The lines of the `<clinit>` template once `trimIndent` has run: the
   * common indent is zero (`.method` starts in column 0), the blank first
   * and last lines are dropped and the two 16-space lines around the method
   * are kept.
   */
  function ClinitLines(libName: string): seq<string> {
    [PaddingLine, ClinitDeclaration, "    .registers 1", ConstStringLine(libName),
     LoadLibraryLine, "    return-void", ".end method", PaddingLine]
  }

  /** The single list element inserted for a missing `<clinit>`; it holds line breaks. */
  function ClinitBlock(libName: string): string {
    JoinLines(ClinitLines(libName))
  }

  /**
   * Where the synthesized `<clinit>` goes: just after the first line that
   * starts with `.source`, `.implements` or `.super`, or at index 1 when
   * there is none.
   */
  function ClinitOffset(lines: seq<string>): (r: nat)
    ensures r >= 1
    ensures IndexOfFirst(lines, ClassHeader) == -1 ==> r == 1
    ensures IndexOfFirst(lines, ClassHeader) != -1 ==>
              r <= |lines| && Matches(ClassHeader, lines[r - 1])
              && forall j :: 0 <= j < r - 1 ==> !Matches(ClassHeader, lines[j])
  {
    var h := IndexOfFirst(lines, ClassHeader);
    if h == -1 then 1 else h + 1
  }

  /** GadgetInjector.kt lines 40-53: `lines.add(endClassIdx, block)`, which throws when the index is past the end. */
  function SynthesizeClinit(lines: seq<string>, libName: string): (r: Outcome)
    ensures r.Patched? || r.IndexOutOfBounds?
    ensures r.IndexOutOfBounds? <==> lines == []
    ensures r.Patched? ==> |r.lines| == |lines| + 1 && r.lines[ClinitOffset(lines)] == ClinitBlock(libName)
  {
    var at := ClinitOffset(lines);
    if at <= |lines| then Patched(Insert(lines, at, ClinitBlock(libName))) else IndexOutOfBounds
  }

  /** The payload put in at index `k`. */
  function Splice(lines: seq<string>, k: nat, libName: string): (r: seq<string>)
    requires k <= |lines|
    ensures |r| == |lines| + 3
  {
    lines[..k] + Payload(libName) + lines[k..]
  }

  /** GadgetInjector.kt lines 58-83: the register budget step, then the payload at the first instruction. */
  function PatchMethod(lines: seq<string>, m: nat, libName: string): (r: Outcome)
    requires m < |lines|
    ensures r.Patched? || r.Diverges?
    ensures r.Patched? ==> |r.lines| == |lines| + 3
  {
    match AdjustRegisters(lines, m)
    case None => Diverges
    case Some(adjusted) => Patched(Splice(adjusted, FirstInstruction(adjusted, m), libName))
  }

  /** What `injectLoadLibrary(smaliFile, fallbackLevel, libName)` does; `file` is None when the file does not exist. */
  function Injection(file: Option<seq<string>>, level: int, libName: string): (r: Outcome)
    ensures r.Patched? ==> file.Some? && |r.lines| > |file.value|
    ensures r.IndexOutOfBounds? ==> file == Some([]) && level == 2
    ensures r.Diverges? ==> file.Some? && 1 <= level <= 3
  {
    match file
    case None => NotPatched
    case Some(lines) =>
      match Target(level)
      case None => NotPatched
      case Some(target) =>
        var methodIdx := IndexOfFirst(lines, MethodDeclaring(target));
        if methodIdx == -1 && level == 2 then SynthesizeClinit(lines, libName)
        else if methodIdx == -1 then NotPatched
        else PatchMethod(lines, methodIdx, libName)
  }

  /**
   * The body of `injectLoadLibrary`, step by step on the mutable line list,
   * with the file read and write taken out: `smaliFile` is the file's lines
   * (None when it does not exist), and a `Patched` outcome carries the lines
   * the file is rewritten with.
   */
  method InjectLoadLibrary(smaliFile: Option<seq<string>>, fallbackLevel: int, libName: string) returns (outcome: Outcome)
    ensures outcome == Injection(smaliFile, fallbackLevel, libName)
  {
    if smaliFile.None? {
      return NotPatched;
    }
    var lines := smaliFile.value;
    var targetMethod: string;
    if fallbackLevel == 1 {
      targetMethod := "attachBaseContext";
    } else if fallbackLevel == 2 {
      targetMethod := "<clinit>";
    } else if fallbackLevel == 3 {
      targetMethod := "onCreate";
    } else {
      return NotPatched;
    }

    var methodIdx := IndexOfFirst(lines, MethodDeclaring(targetMethod));

    if methodIdx == -1 && fallbackLevel == 2 {
      var headerIdx := IndexOfFirst(lines, ClassHeader);
      var endClassIdx := if headerIdx == -1 then 1 else headerIdx + 1;
      if endClassIdx > |lines| {
        return IndexOutOfBounds;
      }
      lines := Insert(lines, endClassIdx, ClinitBlock(libName));
      return Patched(lines);
    } else if methodIdx == -1 {
      return NotPatched;
    }

    var adjusted := BudgetRegisters(lines, methodIdx);
    if adjusted.None? {
      return Diverges;
    }
    lines := InsertPayload(adjusted.value, methodIdx, libName);
    return Patched(lines);
  }

  /**
   * GadgetInjector.kt lines 58-75 on the mutable list: raise the `.registers` count, or the
   * `.locals` count when there is no `.registers` line; None where
   * `getParamCount` never returns.
   */
  method BudgetRegisters(lines: seq<string>, methodIdx: nat) returns (result: Option<seq<string>>)
    requires methodIdx < |lines|
    ensures result == AdjustRegisters(lines, methodIdx)
  {
    var edited := lines;
    var regIdx := RegistersIndex(lines, methodIdx);
    if regIdx >= methodIdx {
      var current := DeclaredCount(edited[regIdx], ".registers", 2);
      var paramCount := GetParamCount(edited, methodIdx);
      if paramCount.None? {
        return None;
      }
      var needed := Max(current, paramCount.value + 1);
      if needed > current {
        edited := edited[regIdx := Rewrite(edited[regIdx], ".registers", current, needed)];
      }
      assert edited == RegistersStep(lines, regIdx, paramCount.value);
    } else {
      var localsIdx := LocalsIndex(lines, methodIdx);
      if localsIdx >= methodIdx {
        var current := DeclaredCount(edited[localsIdx], ".locals", 0);
        var needed := Max(current, 1);
        if needed > current {
          edited := edited[localsIdx := Rewrite(edited[localsIdx], ".locals", current, needed)];
        }
        assert edited == LocalsStep(lines, localsIdx);
      }
    }
    return Some(edited);
  }

  /** GadgetInjector.kt lines 77-80: find the first instruction and add the three payload lines there, last one first. */
  method InsertPayload(lines: seq<string>, methodIdx: nat, libName: string) returns (result: seq<string>)
    requires methodIdx < |lines|
    ensures result == Splice(lines, FirstInstruction(lines, methodIdx), libName)
  {
    var insertIdx := FindFirstInstruction(lines, methodIdx);
    result := Insert(lines, insertIdx, LoadLibraryLine);
    result := Insert(result, insertIdx, ConstStringLine(libName));
    result := Insert(result, insertIdx, "");
    ThreeInserts(lines, insertIdx, libName);
  }

  /** The three `add(insertIdx, …)` calls, last line first, leave the payload in reading order. */
  lemma ThreeInserts(lines: seq<string>, k: nat, libName: string)
    requires k <= |lines|
    ensures Insert(Insert(Insert(lines, k, LoadLibraryLine), k, ConstStringLine(libName)), k, "") == Splice(lines, k, libName)
  {
    var a := Insert(lines, k, LoadLibraryLine);
    var b := Insert(a, k, ConstStringLine(libName));
    assert a[..k] == lines[..k] && a[k..] == [LoadLibraryLine] + lines[k..];
    assert b[..k] == lines[..k] && b[k..] == [ConstStringLine(libName), LoadLibraryLine] + lines[k..];
  }

  /** Taking the three payload lines back out gives the list they were spliced into. */
  lemma SpliceRoundTrip(lines: seq<string>, k: nat, libName: string)
    requires k <= |lines|
    ensures Splice(lines, k, libName)[k..k + 3] == Payload(libName)
    ensures Splice(lines, k, libName)[..k] + Splice(lines, k, libName)[k + 3..] == lines
  {
    var r := Splice(lines, k, libName);
    assert r[..k] == lines[..k];
    assert r[k + 3..] == lines[k..];
  }

  /**
   * The call returns false without writing exactly when the file is
   * missing, the level is not 1, 2 or 3, or (at levels 1 and 3) no line
   * declares the target method; at level 2 an existing file is always
   * acted on.
   */
  lemma NotPatchedIff(file: Option<seq<string>>, level: int, libName: string)
    ensures Injection(file, level, libName) == NotPatched
        <==> file.None? || Target(level).None?
             || (level != 2 && IndexOfFirst(file.value, MethodDeclaring(Target(level).value)) == -1)
  {
  }

  /**
   * Level 2 without a `<clinit>`: an empty file makes `lines.add(1, …)`
   * throw; otherwise the result is the input with exactly one element, the
   * synthesized block, at `ClinitOffset`, and nothing else moved or changed.
   */
  lemma ClinitSynthesized(lines: seq<string>, libName: string)
    requires IndexOfFirst(lines, MethodDeclaring("<clinit>")) == -1
    ensures lines == [] <==> Injection(Some(lines), 2, libName) == IndexOutOfBounds
    ensures lines != [] ==>
              var r := Injection(Some(lines), 2, libName).lines;
              var at := ClinitOffset(lines);
              Injection(Some(lines), 2, libName).Patched?
              && |r| == |lines| + 1 && at <= |lines| && r[at] == ClinitBlock(libName)
              && r[..at] + r[at + 1..] == lines
  {
    assert Injection(Some(lines), 2, libName) == SynthesizeClinit(lines, libName);
    if lines != [] {
      InsertRoundTrip(lines, ClinitOffset(lines), ClinitBlock(libName));
    }
  }

  /** Taking out the element `add(at, x)` put in gives back the list. */
  lemma InsertRoundTrip(lines: seq<string>, at: nat, x: string)
    requires at <= |lines|
    ensures var r := Insert(lines, at, x);
            r[at] == x && r[..at] + r[at + 1..] == lines
  {
    var r := Insert(lines, at, x);
    assert r[..at] + r[at + 1..] == lines[..at] + lines[at..];
    assert lines[..at] + lines[at..] == lines;
  }

  /**
   * On the named-method path (a declaration found at `m` and a budget step
   * that returns), the result is the register-adjusted list with the three
   * payload lines at the first instruction after `m`: three lines longer,
   * payload in order, and removing it restores the adjusted list, in which
   * only `BudgetLine` may differ from the input.
   */
  lemma MethodPatched(lines: seq<string>, level: int, libName: string, m: nat)
    requires Target(level).Some? && m < |lines|
    requires IndexOfFirst(lines, MethodDeclaring(Target(level).value)) == m
    requires AdjustRegisters(lines, m).Some?
    ensures var adjusted := AdjustRegisters(lines, m).value;
            var k := FirstInstruction(adjusted, m);
            var out := Injection(Some(lines), level, libName);
            out.Patched? && |out.lines| == |lines| + 3 && m < k <= |lines|
            && out.lines[k..k + 3] == Payload(libName)
            && out.lines[..k] + out.lines[k + 3..] == adjusted
            && (forall j :: 0 <= j < |lines| && j != BudgetLine(lines, m) ==> adjusted[j] == lines[j])
  {
    var adjusted := AdjustRegisters(lines, m).value;
    var k := FirstInstruction(adjusted, m);
    SpliceRoundTrip(adjusted, k, libName);
    AdjustTouchesOneLine(lines, m);
  }

  /** The budget step never returns on the declaration exactly when the whole call does not. */
  lemma DivergesIff(lines: seq<string>, level: int, libName: string)
    ensures Injection(Some(lines), level, libName) == Diverges
        <==> Target(level).Some?
             && var m := IndexOfFirst(lines, MethodDeclaring(Target(level).value));
                m >= 0 && AdjustRegisters(lines, m).None?
  {
  }

  /**
   * The locator matches by substring: any `.method` line naming a method
   * whose name starts with the target (such as `onCreateView` for
   * `onCreate`) is taken as the target's declaration.
   */
  lemma LongerNameMatches(line: string, target: string, rest: string)
    requires Contains(line, ".method") && Contains(line, target + rest)
    ensures Matches(MethodDeclaring(target), line)
  {
    ContainsIff(line, target + rest);
    var i :| OccursAt(line, target + rest, i);
    assert line[i..i + |target|] == (target + rest)[..|target|];
    assert OccursAt(line, target, i);
    ContainsIff(line, target);
  }

  /**
   * The synthesized `<clinit>` already obeys the patcher's own rules: its
   * `.registers 1` is the one register a static method without parameters
   * needs, so the budget step keeps every line, and its `const-string` line
   * sits exactly where `findFirstInstruction` places a payload.
   */
  lemma ClinitSelfConsistent(libName: string)
    ensures AdjustRegisters(ClinitLines(libName), 1) == Some(ClinitLines(libName))
    ensures FirstInstruction(ClinitLines(libName), 1) == 3
  {
    var ls := ClinitLines(libName);
    assert ParamCount(ls[1]) == Some(0) by {
      ClinitTakesNoRegisters();
    }
    assert RegistersIndex(ls, 1) == 2 && DeclaredCount(ls[2], ".registers", 2) == 1 by {
      ClinitRegistersLine(libName);
    }
    RegistersIdempotent(ls, 1, 0);
    assert !IsInstruction(ls[2]) by {
      ClinitRegistersLine(libName);
    }
    assert IsInstruction(ls[3]) by {
      ConstStringIsInstruction(libName);
    }
  }

  /** The third line of the synthesized method is its `.registers 1` directive, and the first one after the declaration. */
  lemma ClinitRegistersLine(libName: string)
    ensures RegistersIndex(ClinitLines(libName), 1) == 2
    ensures DeclaredCount(ClinitLines(libName)[2], ".registers", 2) == 1
    ensures !IsInstruction(ClinitLines(libName)[2])
  {
    RegistersOneLine();
    ClinitFirstLines(ClinitLines(libName), "    ", 1);
  }

  lemma RegistersOneLine()
    ensures "    .registers 1" == DirectiveLine("    ", ".registers", 1)
  {
    assert IntToString(1) == "1";
  }

  /** Below the synthesized declaration, a `.registers` directive is the one the budget step reads. */
  lemma ClinitFirstLines(ls: seq<string>, indent: string, n: int)
    requires |ls| > 2 && ls[1] == ClinitDeclaration
    requires AllWhitespace(indent) && IntMin <= n <= IntMax && ls[2] == DirectiveLine(indent, ".registers", n)
    ensures RegistersIndex(ls, 1) == 2
    ensures DeclaredCount(ls[2], ".registers", 2) == n
    ensures !IsInstruction(ls[2])
  {
    assert Matches(Directive(".registers"), ls[2]) by {
      DirectiveLineMatches(indent, ".registers", n);
    }
    assert !Matches(Directive(".registers"), ls[1]) by {
      DeclarationIsNoDirective();
    }
    RegistersIndexNext(ls, 1);
    assert DeclaredCount(ls[2], ".registers", 2) == n by {
      DirectiveParses(indent, ".registers", n, 2);
    }
    assert !IsInstruction(ls[2]) by {
      DirectiveIsSkipped(indent, n);
    }
  }

  lemma DeclarationIsNoDirective()
    ensures !Matches(Directive(".registers"), ClinitDeclaration)
  {
    assert ClinitDeclaration[1] == 'm';
    NotStartsWith(ClinitDeclaration, ".registers", 1);
  }

  /** A `.registers` directive is never taken for an instruction. */
  lemma DirectiveIsSkipped(indent: string, n: int)
    requires AllWhitespace(indent)
    ensures !IsInstruction(DirectiveLine(indent, ".registers", n))
  {
    TrimDirective(indent, ".registers", n);
    assert (".registers " + IntToString(n))[..10] == ".registers";
  }

  /**
   * `.end method` is itself a line `findFirstInstruction` stops at (it is not
   * blank and has none of the skipped prefixes), so the search for the
   * payload position never runs past the end of the method it starts in.
   */
  lemma EndMethodIsInstruction(indent: string)
    requires AllWhitespace(indent)
    ensures IsInstruction(indent + ".end method")
  {
    var body := ".end method";
    assert body[0] == '.' && body[1] == 'e' && body[|body| - 1] == 'd';
    TrimStartPastWhitespace(indent, body);
    assert TrimEnd(body) == body;
    NotStartsWith(body, ".registers", 1);
    NotStartsWith(body, ".locals", 1);
    NotStartsWith(body, ".param", 1);
    NotStartsWith(body, ".prologue", 1);
    NotStartsWith(body, ".line", 1);
    NotStartsWith(body, ".local", 1);
    NotStartsWith(body, "# ", 0);
  }

  /** The payload of a method goes in no later than the method's `.end method` line. */
  lemma PayloadBeforeEndMethod(lines: seq<string>, m: nat, e: nat, indent: string)
    requires m < e < |lines| && AllWhitespace(indent) && lines[e] == indent + ".end method"
    ensures FirstInstruction(lines, m) <= e
  {
    EndMethodIsInstruction(indent);
  }

  /** A string that differs from `prefix` at position `i` does not start with it. */
  lemma NotStartsWith(s: string, prefix: string, i: nat)
    requires i < |s| && i < |prefix| && s[i] != prefix[i]
    ensures !StartsWith(s, prefix)
  {
    assert |prefix| <= |s| ==> s[..|prefix|][i] != prefix[i];
  }

  /** The synthesized declaration is static and has no parameters. */
  lemma ClinitTakesNoRegisters()
    ensures ParamCount(ClinitDeclaration) == Some(0)
  {
    assert ParamCount(ClinitDeclaration) == Some(if Contains(ClinitDeclaration, "static") then 0 else 1) by {
      assert ClinitDeclaration == ClinitHead + "(" + EncodeAll([]) + ")" + "V";
      ParamCountOfDeclaration(ClinitHead, [], "V");
    }
    ClinitIsStatic();
  }

  lemma ClinitIsStatic()
    ensures Contains(ClinitDeclaration, "static")
  {
    assert OccursAt(ClinitDeclaration, "static", 8);
    ContainsIff(ClinitDeclaration, "static");
  }

  /** The `const-string` line counts as an instruction, whatever the library name. */
  lemma ConstStringIsInstruction(libName: string)
    ensures IsInstruction(ConstStringLine(libName))
  {
    var body := "const-string v0, \"" + libName + "\"";
    assert ConstStringLine(libName) == "    " + body;
    assert body[0] == 'c' && body[|body| - 1] == '"';
    InstructionAfterIndent("    ", body);
  }

  /** An indented line whose text starts with a letter and ends in a non-blank is an instruction. */
  lemma InstructionAfterIndent(indent: string, body: string)
    requires AllWhitespace(indent) && |body| > 0
    requires 'a' <= body[0] <= 'z' && !IsWhitespace(body[|body| - 1])
    ensures IsInstruction(indent + body)
  {
    TrimStartPastWhitespace(indent, body);
    assert TrimEnd(body) == body;
    NotStartsWith(body, ".registers", 0);
    NotStartsWith(body, ".locals", 0);
    NotStartsWith(body, ".param", 0);
    NotStartsWith(body, ".prologue", 0);
    NotStartsWith(body, ".line", 0);
    NotStartsWith(body, ".local", 0);
    NotStartsWith(body, "# ", 0);
  }
}
