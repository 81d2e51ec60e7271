/**
 * The register budgeter: before the payload is spliced in, the located
 * method's `.registers` count is raised to leave one scratch register
 * above the parameters, or, without a `.registers` line, its `.locals`
 * count is raised to at least one.
 */
module Registers {
  import opened Wrappers
  import opened Strings
  import opened LineList
  import opened Signature

  function Max(a: int, b: int): int {
    if a >= b then a else b
  }

  /** `line.trim().removePrefix(keyword).trim().toIntOrNull() ?: default`. */
  function DeclaredCount(line: string, keyword: string, default: int): (r: int)
    ensures IntMin <= default <= IntMax ==> IntMin <= r <= IntMax
  {
    ParseInt(Trim(RemovePrefix(Trim(line), keyword))).GetOr(default)
  }

  /** `line.replace("$keyword $current", "$keyword $needed")`. */
  function Rewrite(line: string, keyword: string, current: int, needed: int): (r: string)
    ensures !Contains(line, keyword + " " + IntToString(current)) ==> r == line
  {
    ReplaceAll(line, keyword + " " + IntToString(current), keyword + " " + IntToString(needed))
  }

  /**
   * `lines.subList(m, lines.size).indexOfFirst { it.trimStart().startsWith(keyword) } + m`:
   * the first line from `m` to the END OF THE FILE whose text after leading
   * whitespace starts with `keyword`; `m - 1` when there is none.
   */
  function DirectiveIndex(lines: seq<string>, m: nat, keyword: string): (r: int)
    requires m < |lines|
    ensures m - 1 <= r < |lines|
    ensures r >= m ==> Matches(Directive(keyword), lines[r])
    ensures forall j :: m <= j < |lines| && (r < m || j < r) ==> !Matches(Directive(keyword), lines[j])
  {
    var r := IndexOfFirst(lines[m..], Directive(keyword));
    assert forall j :: m <= j < |lines| ==> lines[m..][j - m] == lines[j];
    r + m
  }

  /** The `.registers` line the budgeter edits. */
  function RegistersIndex(lines: seq<string>, m: nat): int
    requires m < |lines|
  {
    DirectiveIndex(lines, m, ".registers")
  }

  /** The `.locals` line, looked for only when `RegistersIndex` finds nothing. */
  function LocalsIndex(lines: seq<string>, m: nat): int
    requires m < |lines|
  {
    DirectiveIndex(lines, m, ".locals")
  }

  /** The one line the budgeter may rewrite, or -1. */
  function BudgetLine(lines: seq<string>, m: nat): (r: int)
    requires m < |lines|
    ensures r == -1 || m <= r < |lines|
  {
    if RegistersIndex(lines, m) >= m then RegistersIndex(lines, m)
    else if LocalsIndex(lines, m) >= m then LocalsIndex(lines, m)
    else -1
  }

  /** `if (needed > current) lines[index] = lines[index].replace("$keyword $current", "$keyword $needed")`. */
  function Raise(lines: seq<string>, index: nat, keyword: string, current: int, needed: int): (r: seq<string>)
    requires index < |lines| && |keyword| > 0
    ensures |r| == |lines|
    ensures forall j :: 0 <= j < |lines| && j != index ==> r[j] == lines[j]
  {
    if needed > current then lines[index := Rewrite(lines[index], keyword, current, needed)] else lines
  }

  /**
   * The budget step for the method declared at line `m`; None when
   * `getParamCount` never returns on the declaration line.
   */
  function AdjustRegisters(lines: seq<string>, m: nat): (r: Option<seq<string>>)
    requires m < |lines|
    ensures r.None? <==> RegistersIndex(lines, m) >= m && ParamCount(lines[m]).None?
    ensures r.Some? ==> |r.value| == |lines|
  {
    var regIdx := RegistersIndex(lines, m);
    if regIdx >= m then
      match ParamCount(lines[m])
      case None => None
      case Some(paramCount) => Some(RegistersStep(lines, regIdx, paramCount))
    else
      var localsIdx := LocalsIndex(lines, m);
      if localsIdx >= m then Some(LocalsStep(lines, localsIdx)) else Some(lines)
  }

  /** GadgetInjector.kt lines 60-64: `needed = max(current, paramCount + 1)`, an unreadable count taken as 2. */
  function RegistersStep(lines: seq<string>, regIdx: nat, paramCount: nat): (r: seq<string>)
    requires regIdx < |lines|
    ensures |r| == |lines|
  {
    var current := DeclaredCount(lines[regIdx], ".registers", 2);
    Raise(lines, regIdx, ".registers", current, Max(current, paramCount + 1))
  }

  /** GadgetInjector.kt lines 69-73: `needed = max(current, 1)`, an unreadable count taken as 0. */
  function LocalsStep(lines: seq<string>, localsIdx: nat): (r: seq<string>)
    requires localsIdx < |lines|
    ensures |r| == |lines|
  {
    var current := DeclaredCount(lines[localsIdx], ".locals", 0);
    Raise(lines, localsIdx, ".locals", current, Max(current, 1))
  }

  /**
   * The rewrite is textual: when the line does not hold `keyword`, one
   * space and the current count as printed (other spacing, or a count the
   * parse could not read and replaced by its default), nothing changes,
   * even though a larger count was needed.
   */
  lemma RaiseNeedsPattern(lines: seq<string>, index: nat, keyword: string, current: int, needed: int)
    requires index < |lines| && |keyword| > 0
    requires !Contains(lines[index], keyword + " " + IntToString(current))
    ensures Raise(lines, index, keyword, current, needed) == lines
  {
    assert lines[index := lines[index]] == lines;
  }

  /**
   * The budget step rewrites at most the line `BudgetLine`: every other line
   * is kept, and nothing changes when neither directive is found.
   */
  lemma AdjustTouchesOneLine(lines: seq<string>, m: nat)
    requires m < |lines| && AdjustRegisters(lines, m).Some?
    ensures forall j :: 0 <= j < |lines| && j != BudgetLine(lines, m) ==> AdjustRegisters(lines, m).value[j] == lines[j]
    ensures BudgetLine(lines, m) == -1 ==> AdjustRegisters(lines, m) == Some(lines)
  {
  }

  /** A directive written the usual way: indentation, the keyword, one space, a number. */
  function DirectiveLine(indent: string, keyword: string, count: int): string {
    indent + (keyword + " " + IntToString(count))
  }

  predicate AllWhitespace(s: string) {
    forall i :: 0 <= i < |s| ==> IsWhitespace(s[i])
  }

  lemma {:induction false} TrimStartPastWhitespace(w: string, s: string)
    requires AllWhitespace(w)
    requires s == [] || !IsWhitespace(s[0])
    ensures TrimStart(w + s) == s
    decreases |w|
  {
    if w != [] {
      assert (w + s)[1..] == w[1..] + s;
      TrimStartPastWhitespace(w[1..], s);
    } else {
      assert w + s == s;
    }
  }

  lemma NatToStringEndsInDigit(n: nat)
    ensures IsDigit(NatToString(n)[|NatToString(n)| - 1])
  {
  }

  /** Trimming a directive written the usual way leaves the keyword, the space and the number. */
  lemma TrimDirective(indent: string, keyword: string, count: int)
    requires AllWhitespace(indent)
    requires |keyword| > 0 && !IsWhitespace(keyword[0])
    ensures Trim(DirectiveLine(indent, keyword, count)) == keyword + " " + IntToString(count)
  {
    var digits := IntToString(count);
    var body := keyword + " " + digits;
    TrimStartPastWhitespace(indent, body);
    DigitsEndWithDigit(count);
    assert body[|body| - 1] == digits[|digits| - 1];
    TrimEndKeeps(body);
  }

  lemma TrimEndKeeps(s: string)
    requires s != [] && IsDigit(s[|s| - 1])
    ensures TrimEnd(s) == s
  {
  }

  lemma DigitsEndWithDigit(n: int)
    ensures IsDigit(IntToString(n)[|IntToString(n)| - 1])
  {
    if n < 0 {
      var d := NatToString(-n);
      NatToStringEndsInDigit(-n);
      assert IntToString(n)[|IntToString(n)| - 1] == d[|d| - 1];
    } else {
      NatToStringEndsInDigit(n);
    }
  }

  lemma TrimNumber(n: int)
    ensures Trim(" " + IntToString(n)) == IntToString(n)
  {
    var digits := IntToString(n);
    TrimStartPastWhitespace(" ", digits);
    DigitsEndWithDigit(n);
  }

  /** On a directive written the usual way, the parse reads back the number. */
  lemma DirectiveParses(indent: string, keyword: string, current: int, default: int)
    requires AllWhitespace(indent)
    requires |keyword| > 0 && !IsWhitespace(keyword[0])
    requires IntMin <= current <= IntMax
    ensures DeclaredCount(DirectiveLine(indent, keyword, current), keyword, default) == current
  {
    TrimDirective(indent, keyword, current);
    RemoveKeyword(keyword, IntToString(current));
    TrimNumber(current);
    ParseIntToString(current);
  }

  /** Removing the keyword leaves the space and the number. */
  lemma RemoveKeyword(keyword: string, digits: string)
    ensures RemovePrefix(keyword + " " + digits, keyword) == " " + digits
  {
    assert (keyword + " " + digits)[..|keyword|] == keyword;
    assert (keyword + " " + digits)[|keyword|..] == " " + digits;
  }

  /** On a directive written the usual way, the textual rewrite replaces exactly the number. */
  lemma DirectiveRewrites(indent: string, keyword: string, current: int, needed: int)
    requires AllWhitespace(indent)
    requires |keyword| > 0 && !IsWhitespace(keyword[0])
    ensures Rewrite(DirectiveLine(indent, keyword, current), keyword, current, needed) == DirectiveLine(indent, keyword, needed)
  {
    var pattern := keyword + " " + IntToString(current);
    assert pattern[0] == keyword[0];
    ReplaceAfterWhitespace(indent, pattern, keyword + " " + IntToString(needed));
  }

  /**
   * The `.registers` branch on a directive written the usual way: the count
   * becomes `max(current, paramCount + 1)`, so it never decreases and always
   * leaves a register below the parameters.
   */
  lemma RegistersBudget(lines: seq<string>, m: nat, indent: string, current: int, paramCount: nat)
    requires m < |lines| && RegistersIndex(lines, m) >= m
    requires AllWhitespace(indent) && IntMin <= current <= IntMax
    requires lines[RegistersIndex(lines, m)] == DirectiveLine(indent, ".registers", current)
    requires ParamCount(lines[m]) == Some(paramCount)
    ensures AdjustRegisters(lines, m)
         == Some(lines[RegistersIndex(lines, m) := DirectiveLine(indent, ".registers", Max(current, paramCount + 1))])
    ensures Max(current, paramCount + 1) >= current && Max(current, paramCount + 1) > paramCount
  {
    var r := RegistersIndex(lines, m);
    assert AdjustRegisters(lines, m) == Some(RegistersStep(lines, r, paramCount));
    DirectiveParses(indent, ".registers", current, 2);
    RaiseDirective(lines, r, indent, ".registers", current, Max(current, paramCount + 1));
  }

  /** Raising a directive written the usual way puts the new number in its place. */
  lemma RaiseDirective(lines: seq<string>, index: nat, indent: string, keyword: string, current: int, needed: int)
    requires index < |lines| && lines[index] == DirectiveLine(indent, keyword, current)
    requires AllWhitespace(indent) && |keyword| > 0 && !IsWhitespace(keyword[0])
    requires needed >= current
    ensures Raise(lines, index, keyword, current, needed) == lines[index := DirectiveLine(indent, keyword, needed)]
  {
    if needed > current {
      DirectiveRewrites(indent, keyword, current, needed);
    } else {
      assert lines[index := DirectiveLine(indent, keyword, needed)] == lines;
    }
  }

  /**
   * When the `.registers` count already leaves a register free, the budget
   * step changes nothing.
   */
  lemma RegistersIdempotent(lines: seq<string>, m: nat, paramCount: nat)
    requires m < |lines| && RegistersIndex(lines, m) >= m
    requires ParamCount(lines[m]) == Some(paramCount)
    requires DeclaredCount(lines[RegistersIndex(lines, m)], ".registers", 2) >= paramCount + 1
    ensures AdjustRegisters(lines, m) == Some(lines)
  {
  }

  /** A directive written the usual way passes the directive test for its keyword. */
  lemma DirectiveLineMatches(indent: string, keyword: string, count: int)
    requires AllWhitespace(indent) && |keyword| > 0 && !IsWhitespace(keyword[0])
    ensures Matches(Directive(keyword), DirectiveLine(indent, keyword, count))
  {
    var body := keyword + " " + IntToString(count);
    assert DirectiveLine(indent, keyword, count) == indent + body;
    TrimStartPastWhitespace(indent, body);
    assert body[..|keyword|] == keyword;
  }

  /** When the declaration line itself is no `.registers` line but the next one is, the search stops there. */
  lemma RegistersIndexNext(lines: seq<string>, m: nat)
    requires m + 1 < |lines|
    requires !Matches(Directive(".registers"), lines[m])
    requires Matches(Directive(".registers"), lines[m + 1])
    ensures RegistersIndex(lines, m) == m + 1
  {
  }

  /** Putting another `.registers` line in place of the one found does not move the search. */
  lemma RegistersIndexKept(lines: seq<string>, m: nat, x: string)
    requires m < |lines| && RegistersIndex(lines, m) >= m
    requires Matches(Directive(".registers"), x)
    ensures RegistersIndex(lines[RegistersIndex(lines, m) := x], m) == RegistersIndex(lines, m)
  {
    var r := RegistersIndex(lines, m);
    assert lines[r := x][m..] == lines[m..][r - m := x];
    IndexOfFirstUpdate(lines[m..], Directive(".registers"), r - m, x);
  }

  /**
   * Running the budget step twice gives what running it once gives, for a
   * `.registers` directive written the usual way below the declaration.
   */
  lemma BudgetTwiceIsOnce(lines: seq<string>, m: nat, indent: string, current: int)
    requires m < |lines| && RegistersIndex(lines, m) > m
    requires AllWhitespace(indent) && IntMin <= current <= IntMax
    requires lines[RegistersIndex(lines, m)] == DirectiveLine(indent, ".registers", current)
    requires ParamCount(lines[m]).Some? && ParamCount(lines[m]).value < IntMax
    ensures AdjustRegisters(lines, m).Some?
    ensures AdjustRegisters(AdjustRegisters(lines, m).value, m) == AdjustRegisters(lines, m)
  {
    var r := RegistersIndex(lines, m);
    var paramCount := ParamCount(lines[m]).value;
    var needed := Max(current, paramCount + 1);
    var once := lines[r := DirectiveLine(indent, ".registers", needed)];
    assert AdjustRegisters(lines, m) == Some(once) by {
      RegistersBudget(lines, m, indent, current, paramCount);
    }
    assert RegistersIndex(once, m) == r by {
      DirectiveLineMatches(indent, ".registers", needed);
      RegistersIndexKept(lines, m, DirectiveLine(indent, ".registers", needed));
    }
    assert once[m] == lines[m];
    BudgetFixed(once, m, indent, needed, paramCount);
  }

  /** A `.registers` count that already leaves a register free is left as it is. */
  lemma BudgetFixed(lines: seq<string>, m: nat, indent: string, count: int, paramCount: nat)
    requires m < |lines| && RegistersIndex(lines, m) >= m
    requires AllWhitespace(indent) && paramCount < count <= IntMax
    requires lines[RegistersIndex(lines, m)] == DirectiveLine(indent, ".registers", count)
    requires ParamCount(lines[m]) == Some(paramCount)
    ensures AdjustRegisters(lines, m) == Some(lines)
  {
    DirectiveParses(indent, ".registers", count, 2);
    RegistersIdempotent(lines, m, paramCount);
  }

  /**
   * A directive with text after its count (a trailing comment, say):
   * indentation, the keyword, one space, the digits, then `tail`, which
   * starts with whitespace.
   */
  function CommentedLine(indent: string, keyword: string, digits: string, tail: string): string {
    indent + (keyword + " " + digits + tail)
  }

  /** Text after the count makes `toIntOrNull` fail, so the default count is used instead of the one written. */
  lemma CommentedCount(indent: string, keyword: string, digits: string, tail: string, default: int)
    requires AllWhitespace(indent) && |keyword| > 0 && !IsWhitespace(keyword[0])
    requires |digits| > 0 && AllDigits(digits)
    requires |tail| > 0 && IsWhitespace(tail[0]) && !IsWhitespace(tail[|tail| - 1])
    ensures DeclaredCount(CommentedLine(indent, keyword, digits, tail), keyword, default) == default
  {
    var number := digits + tail;
    var body := keyword + " " + number;
    assert CommentedLine(indent, keyword, digits, tail) == indent + body;
    assert body[0] == keyword[0] && body[|body| - 1] == tail[|tail| - 1];
    TrimStartPastWhitespace(indent, body);
    assert TrimEnd(body) == body;
    RemoveKeyword(keyword, number);
    assert number[0] == digits[0] && number[|number| - 1] == tail[|tail| - 1];
    TrimStartPastWhitespace(" ", number);
    assert TrimEnd(number) == number;
    assert !AllDigits(number) by {
      assert number[|digits|] == tail[0];
    }
    assert ParseInt(number) == None;
  }

  /**
   * On such a line whose digits start with the printed `current`, the
   * textual rewrite replaces only that leading part of the digits and keeps
   * the rest of them and the tail.
   */
  lemma CommentedRewrite(indent: string, keyword: string, current: int, more: string, tail: string, needed: int)
    requires AllWhitespace(indent) && |keyword| > 0 && !IsWhitespace(keyword[0]) && !IsDigit(keyword[0])
    requires AllDigits(more) && keyword[0] !in tail
    ensures Rewrite(CommentedLine(indent, keyword, IntToString(current) + more, tail), keyword, current, needed)
         == CommentedLine(indent, keyword, IntToString(needed) + more, tail)
  {
    var pattern := keyword + " " + IntToString(current);
    var replacement := keyword + " " + IntToString(needed);
    var rest := more + tail;
    assert CommentedLine(indent, keyword, IntToString(current) + more, tail) == indent + pattern + rest by {
      Regroup(indent, keyword, IntToString(current), more, tail);
    }
    assert ReplaceAll(rest, pattern, replacement) == rest by {
      assert pattern[0] == keyword[0];
      DigitsLack(keyword[0], more);
      NotContainsLead(rest, pattern);
    }
    ReplaceAfterIndent(indent, pattern, rest, replacement);
    Regroup(indent, keyword, IntToString(needed), more, tail);
  }

  lemma Regroup(indent: string, keyword: string, digits: string, more: string, tail: string)
    ensures CommentedLine(indent, keyword, digits + more, tail) == indent + (keyword + " " + digits) + (more + tail)
  {
  }

  lemma DigitsLack(c: char, digits: string)
    requires !IsDigit(c) && AllDigits(digits)
    ensures c !in digits
  {
  }

  /** `replace` on indentation, the pattern and a rest that does not contain it: only the pattern changes. */
  lemma ReplaceAfterIndent(indent: string, pattern: string, rest: string, replacement: string)
    requires AllWhitespace(indent) && |pattern| > 0 && !IsWhitespace(pattern[0])
    requires ReplaceAll(rest, pattern, replacement) == rest
    ensures ReplaceAll(indent + pattern + rest, pattern, replacement) == indent + replacement + rest
  {
    var line := indent + pattern + rest;
    assert OccursAt(line, pattern, |indent|) by {
      assert line[|indent|..|indent| + |pattern|] == pattern;
    }
    forall j | 0 <= j < |indent|
      ensures !OccursAt(line, pattern, j)
    {
      LeadMismatch(line, pattern, j);
    }
    ReplaceAtFirst(line, pattern, replacement, |indent|);
    assert line[..|indent|] == indent && line[|indent| + |pattern|..] == rest;
  }

  /** A directive with a tail still passes the directive test. */
  lemma CommentedMatches(indent: string, keyword: string, digits: string, tail: string)
    requires AllWhitespace(indent) && |keyword| > 0 && !IsWhitespace(keyword[0])
    ensures Matches(Directive(keyword), CommentedLine(indent, keyword, digits, tail))
  {
    var body := keyword + " " + digits + tail;
    assert body[0] == keyword[0];
    TrimStartPastWhitespace(indent, body);
    assert body[..|keyword|] == keyword;
  }

  /**
   * The `.registers` branch on a directive with a tail whose digits start
   * with 2: the count is read as the default 2 whatever is written, and the
   * first `.registers 2` in the line, the written count's leading digit,
   * is replaced by `paramCount + 1`.
   */
  lemma CommentedRegistersStep(lines: seq<string>, m: nat, indent: string, digits: string, tail: string, paramCount: nat)
    requires m < |lines| && RegistersIndex(lines, m) >= m
    requires AllWhitespace(indent) && |digits| > 0 && AllDigits(digits) && digits[0] == '2'
    requires |tail| > 0 && IsWhitespace(tail[0]) && !IsWhitespace(tail[|tail| - 1]) && '.' !in tail
    requires lines[RegistersIndex(lines, m)] == CommentedLine(indent, ".registers", digits, tail)
    requires ParamCount(lines[m]) == Some(paramCount) && paramCount >= 2
    ensures AdjustRegisters(lines, m)
         == Some(lines[RegistersIndex(lines, m) := CommentedLine(indent, ".registers", IntToString(paramCount + 1) + digits[1..], tail)])
  {
    var r := RegistersIndex(lines, m);
    assert AdjustRegisters(lines, m) == Some(RegistersStep(lines, r, paramCount));
    CommentedStepAt(lines, r, indent, digits, tail, paramCount);
  }

  /** `RegistersStep` on the commented line at `r`, wherever that line sits. */
  lemma CommentedStepAt(lines: seq<string>, r: nat, indent: string, digits: string, tail: string, paramCount: nat)
    requires r < |lines|
    requires AllWhitespace(indent) && |digits| > 0 && AllDigits(digits) && digits[0] == '2'
    requires |tail| > 0 && IsWhitespace(tail[0]) && !IsWhitespace(tail[|tail| - 1]) && '.' !in tail
    requires lines[r] == CommentedLine(indent, ".registers", digits, tail) && paramCount >= 2
    ensures RegistersStep(lines, r, paramCount)
         == lines[r := CommentedLine(indent, ".registers", IntToString(paramCount + 1) + digits[1..], tail)]
  {
    CommentedCount(indent, ".registers", digits, tail, 2);
    assert IntToString(2) + digits[1..] == digits;
    CommentedRewrite(indent, ".registers", 2, digits[1..], tail, paramCount + 1);
  }

  /**
   * With a trailing comment the budget step is not idempotent. On a
   * `.registers 2 <tail>` line, with `paramCount + 1` printed as `d` where
   * `d` starts with 2 (19 parameter registers, say, so `d` is "20"), one
   * step writes `d` (at least two digits) and a second writes `d` followed by the rest of `d`
   * ("200"), as the second parse again falls back to 2 and finds
   * `.registers 2` at the head of the new count.
   */
  lemma CommentedRegistersGrow(lines: seq<string>, m: nat, indent: string, tail: string, paramCount: nat)
    requires m < |lines| && RegistersIndex(lines, m) > m
    requires AllWhitespace(indent)
    requires |tail| > 0 && IsWhitespace(tail[0]) && !IsWhitespace(tail[|tail| - 1]) && '.' !in tail
    requires lines[RegistersIndex(lines, m)] == CommentedLine(indent, ".registers", "2", tail)
    requires ParamCount(lines[m]) == Some(paramCount) && paramCount >= 9 && IntToString(paramCount + 1)[0] == '2'
    ensures var d := IntToString(paramCount + 1);
            AdjustRegisters(lines, m) == Some(lines[RegistersIndex(lines, m) := CommentedLine(indent, ".registers", d, tail)])
            && AdjustRegisters(AdjustRegisters(lines, m).value, m)
               == Some(lines[RegistersIndex(lines, m) := CommentedLine(indent, ".registers", d + d[1..], tail)])
            && |d + d[1..]| > |d|
  {
    var d := IntToString(paramCount + 1);
    assert |d| > 1;
    assert "2"[1..] == [] && d + [] == d;
    CommentedRegistersStep(lines, m, indent, "2", tail, paramCount);
    CommentedRegistersAgain(lines, m, indent, d, tail, paramCount);
  }

  /** The second step of `CommentedRegistersGrow`, on the line the first step wrote. */
  lemma CommentedRegistersAgain(lines: seq<string>, m: nat, indent: string, d: string, tail: string, paramCount: nat)
    requires m < |lines| && RegistersIndex(lines, m) > m
    requires AllWhitespace(indent) && |d| > 0 && d[0] == '2' && AllDigits(d)
    requires |tail| > 0 && IsWhitespace(tail[0]) && !IsWhitespace(tail[|tail| - 1]) && '.' !in tail
    requires ParamCount(lines[m]) == Some(paramCount) && paramCount >= 2
    ensures var r := RegistersIndex(lines, m);
            AdjustRegisters(lines[r := CommentedLine(indent, ".registers", d, tail)], m)
            == Some(lines[r := CommentedLine(indent, ".registers", IntToString(paramCount + 1) + d[1..], tail)])
  {
    var r := RegistersIndex(lines, m);
    var line1 := CommentedLine(indent, ".registers", d, tail);
    var line2 := CommentedLine(indent, ".registers", IntToString(paramCount + 1) + d[1..], tail);
    var once := lines[r := line1];
    assert RegistersIndex(once, m) == r && once[m] == lines[m] by {
      CommentedMatches(indent, ".registers", d, tail);
      RegistersIndexKept(lines, m, line1);
    }
    CommentedRegistersStep(once, m, indent, d, tail, paramCount);
    assert once[r := line2] == lines[r := line2];
  }

  /**
   * The `.locals` branch, taken only when no line from `m` on is a
   * `.registers` directive: on a directive written the usual way the count
   * becomes `max(current, 1)`.
   */
  lemma LocalsBudget(lines: seq<string>, m: nat, indent: string, current: int)
    requires m < |lines| && RegistersIndex(lines, m) < m && LocalsIndex(lines, m) >= m
    requires AllWhitespace(indent) && IntMin <= current <= IntMax
    requires lines[LocalsIndex(lines, m)] == DirectiveLine(indent, ".locals", current)
    ensures AdjustRegisters(lines, m) == Some(lines[LocalsIndex(lines, m) := DirectiveLine(indent, ".locals", Max(current, 1))])
  {
    var l := LocalsIndex(lines, m);
    assert AdjustRegisters(lines, m) == Some(LocalsStep(lines, l));
    DirectiveParses(indent, ".locals", current, 0);
    RaiseDirective(lines, l, indent, ".locals", current, Max(current, 1));
  }
}
