/**
 * The insertion-point finder (`findFirstInstruction`): the first line after
 * a method's declaration that is neither blank nor a directive or comment
 * that must stay ahead of the code.
 */
module Insertion {
  import opened Strings

  /** The prefixes `findFirstInstruction` skips (`.annotation` is not among them). */
  predicate HasSkipPrefix(trimmed: string) {
    StartsWith(trimmed, ".registers") || StartsWith(trimmed, ".locals") || StartsWith(trimmed, ".param")
    || StartsWith(trimmed, ".prologue") || StartsWith(trimmed, ".line") || StartsWith(trimmed, ".local")
    || StartsWith(trimmed, "# ")
  }

  /** A line the finder stops at. */
  predicate IsInstruction(line: string) {
    Trim(line) != [] && !HasSkipPrefix(Trim(line))
  }

  /** The first instruction line at or after `i`, or -1. */
  function NextInstruction(lines: seq<string>, i: nat): (r: int)
    ensures r == -1 || (i <= r < |lines| && IsInstruction(lines[r]))
    ensures forall j :: i <= j < |lines| && (r == -1 || j < r) ==> !IsInstruction(lines[j])
    decreases |lines| - i
  {
    if i >= |lines| then -1
    else if IsInstruction(lines[i]) then i
    else NextInstruction(lines, i + 1)
  }

  /**
   * Where the payload goes for the method declared at `start`: the first
   * instruction line after it, or `start + 1` when no later line is one.
   */
  function FirstInstruction(lines: seq<string>, start: nat): (r: nat)
    requires start < |lines|
    ensures start < r <= |lines|
    ensures r < |lines| && IsInstruction(lines[r]) ==> forall j :: start < j < r ==> !IsInstruction(lines[j])
    ensures (r == |lines| || !IsInstruction(lines[r])) ==> r == start + 1 && forall j :: start < j < |lines| ==> !IsInstruction(lines[j])
  {
    var r := NextInstruction(lines, start + 1);
    if r < 0 then start + 1 else r
  }

  /** The loop of `findFirstInstruction`, with its early return. */
  method FindFirstInstruction(lines: seq<string>, methodStart: nat) returns (index: nat)
    requires methodStart < |lines|
    ensures index == FirstInstruction(lines, methodStart)
  {
    var i := methodStart + 1;
    while i < |lines|
      invariant methodStart + 1 <= i <= |lines|
      invariant forall j :: methodStart < j < i ==> !IsInstruction(lines[j])
    {
      var trimmed := Trim(lines[i]);
      if trimmed != [] && !HasSkipPrefix(trimmed) {
        return i;
      }
      i := i + 1;
    }
    return methodStart + 1;
  }
}
