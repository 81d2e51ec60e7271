/**
 * The signature analyzer (`getParamCount`): how many registers a method's
 * receiver and parameters take, read off the type descriptor between the
 * parentheses of its `.method` line.
 */
module Signature {
  import opened Wrappers
  import opened Strings

  /** `sig.substringAfter("(").substringBefore(")")`: the parameter part of the descriptor. */
  function Params(sig: string): (r: string)
    ensures ')' !in r
  {
    SubstringBefore(SubstringAfter(sig, '('), ')')
  }

  /** The receiver register: one unless the word "static" occurs anywhere on the line. */
  function ReceiverSlots(sig: string): nat {
    if Contains(sig, "static") then 0 else 1
  }

  function Plus(o: Option<nat>, k: nat): Option<nat> {
    match o
    case None => None
    case Some(v) => Some(v + k)
  }

  /**
   * The registers the scanner counts from position `i` of the parameter text
   * `p`: an 'L' counts one and moves just past the next ';', a '[' counts
   * nothing, any other character counts one. None when the scanner reaches
   * an 'L' with no ';' after it, where the source's loop never ends.
   */
  function SlotsFrom(p: string, i: nat): (r: Option<nat>)
    requires i <= |p|
    ensures r.Some? ==> r.value <= |p| - i
    decreases |p| - i
  {
    if i == |p| then Some(0)
    else if p[i] == 'L' then
      var j := IndexOfChar(p, ';', i);
      if j < 0 then None else Plus(SlotsFrom(p, j + 1), 1)
    else if p[i] == '[' then SlotsFrom(p, i + 1)
    else Plus(SlotsFrom(p, i + 1), 1)
  }

  /**
   * What `getParamCount` returns for the declaration line `sig`: the receiver
   * plus the scanned parameter slots; None when the call never returns.
   */
  function ParamCount(sig: string): (r: Option<nat>)
    ensures r.Some? ==> ReceiverSlots(sig) <= r.value <= |Params(sig)| + 1
  {
    Plus(SlotsFrom(Params(sig), 0), ReceiverSlots(sig))
  }

  /** `getParamCount`: the receiver slot, then the loop over the parameter text. */
  method GetParamCount(lines: seq<string>, methodStart: nat) returns (result: Option<nat>)
    requires methodStart < |lines|
    ensures result == ParamCount(lines[methodStart])
  {
    var sig := lines[methodStart];
    var params := SubstringBefore(SubstringAfter(sig, '('), ')');
    var count: nat := if !Contains(sig, "static") then 1 else 0;
    result := ScanParams(params, count);
  }

  /** The loop of `getParamCount` from `count`, stopping where the source would start over at position 0. */
  method ScanParams(params: string, count0: nat) returns (result: Option<nat>)
    ensures result == Plus(SlotsFrom(params, 0), count0)
  {
    var count := count0;
    var i: nat := 0;
    while i < |params|
      invariant i <= |params|
      invariant Plus(SlotsFrom(params, 0), count0) == Plus(SlotsFrom(params, i), count)
      decreases |params| - i
    {
      if params[i] == 'L' {
        count := count + 1;
        var semicolon := IndexOfChar(params, ';', i);
        if semicolon < 0 {
          // The source sets i to 0 here and goes round for ever (ScanExitsIff).
          return None;
        }
        i := semicolon + 1;
      } else if params[i] == '[' {
        i := i + 1;
      } else {
        count := count + 1;
        i := i + 1;
      }
    }
    return Some(count);
  }

  /** Every 'L' at or after position `i` has a ';' somewhere after it. */
  predicate ClosedFrom(p: string, i: nat) {
    forall k :: i <= k < |p| && p[k] == 'L' ==> IndexOfChar(p, ';', k) >= 0
  }

  /** The scan yields a count exactly when every object type it can meet is closed by a ';'. */
  lemma {:induction false} SlotsDefinedIff(p: string, i: nat)
    requires i <= |p|
    ensures SlotsFrom(p, i).Some? <==> ClosedFrom(p, i)
    decreases |p| - i
  {
    if i < |p| {
      if p[i] == 'L' {
        var j := IndexOfChar(p, ';', i);
        if j >= 0 {
          SlotsDefinedIff(p, j + 1);
          forall k | i <= k < j + 1 && p[k] == 'L'
            ensures IndexOfChar(p, ';', k) >= 0
          {
            assert p[j] == ';';
          }
        }
      } else {
        SlotsDefinedIff(p, i + 1);
      }
    }
  }

  /** Where one pass of the source's loop moves `i`, including the reset to 0 when `indexOf` gives -1. */
  function NextPos(p: string, i: nat): (r: nat)
    requires i < |p|
    ensures r <= |p|
  {
    if p[i] == 'L' then IndexOfChar(p, ';', i) + 1 else i + 1
  }

  /** The value of `i` after `n` passes of the source's loop (fixed once the loop has exited). */
  function PosAfter(p: string, n: nat): (r: nat)
    ensures r <= |p|
  {
    if n == 0 then 0
    else
      var q := PosAfter(p, n - 1);
      if q < |p| then NextPos(p, q) else q
  }

  /** The source's `while (i < params.length)` loop exits after finitely many passes. */
  ghost predicate ScanExits(p: string) {
    exists n: nat :: PosAfter(p, n) >= |p|
  }

  lemma {:induction false} ScanProgresses(p: string, n: nat)
    requires SlotsFrom(p, 0).Some?
    ensures SlotsFrom(p, PosAfter(p, n)).Some?
    ensures PosAfter(p, n) >= n || PosAfter(p, n) == |p|
  {
    if n > 0 {
      ScanProgresses(p, n - 1);
    }
  }

  lemma {:induction false} ScanStuck(p: string, n: nat)
    requires SlotsFrom(p, 0).None?
    ensures SlotsFrom(p, PosAfter(p, n)).None?
    ensures PosAfter(p, n) < |p|
  {
    if n > 0 {
      ScanStuck(p, n - 1);
    }
  }

  /**
   * The source's loop terminates exactly when the model's scan yields a
   * count, that is, exactly when every 'L' in the parameters has a later ';'.
   */
  lemma ScanExitsIff(p: string)
    ensures ScanExits(p) <==> SlotsFrom(p, 0).Some?
    ensures ScanExits(p) <==> ClosedFrom(p, 0)
  {
    SlotsDefinedIff(p, 0);
    if SlotsFrom(p, 0).Some? {
      ScanProgresses(p, |p|);
    } else {
      forall n: nat ensures PosAfter(p, n) < |p| {
        ScanStuck(p, n);
      }
    }
  }

  /** A parameter type as a descriptor spells it. */
  datatype FieldType = Primitive(code: char) | Object(className: string) | Array(element: FieldType)

  predicate WellFormedType(t: FieldType) {
    match t
    case Primitive(c) => c in "ZBSCIJFD"
    case Object(n) => ';' !in n && ')' !in n
    case Array(e) => WellFormedType(e)
  }

  predicate WellFormedTypes(ts: seq<FieldType>) {
    forall k :: 0 <= k < |ts| ==> WellFormedType(ts[k])
  }

  function Encode(t: FieldType): string {
    match t
    case Primitive(c) => [c]
    case Object(n) => "L" + n + ";"
    case Array(e) => "[" + Encode(e)
  }

  function EncodeAll(ts: seq<FieldType>): string {
    if ts == [] then "" else Encode(ts[0]) + EncodeAll(ts[1..])
  }

  /** The registers Dalvik gives a parameter: two for `long` and `double`, one for anything else. */
  function RegisterWidth(t: FieldType): nat {
    if t == Primitive('J') || t == Primitive('D') then 2 else 1
  }

  function DalvikSlots(ts: seq<FieldType>): nat {
    if ts == [] then 0 else RegisterWidth(ts[0]) + DalvikSlots(ts[1..])
  }

  function WideCount(ts: seq<FieldType>): nat {
    if ts == [] then 0 else (if RegisterWidth(ts[0]) == 2 then 1 else 0) + WideCount(ts[1..])
  }

  lemma {:induction false} IndexOfShift(a: string, b: string, c: char, i: nat)
    requires i <= |b|
    ensures IndexOfChar(a + b, c, |a| + i) == (if IndexOfChar(b, c, i) < 0 then -1 else IndexOfChar(b, c, i) + |a|)
    decreases |b| - i
  {
    if i < |b| && b[i] != c {
      IndexOfShift(a, b, c, i + 1);
    }
  }

  /** Scanning the tail of a concatenation is scanning the tail on its own. */
  lemma {:induction false} SlotsShift(a: string, b: string, i: nat)
    requires i <= |b|
    ensures SlotsFrom(a + b, |a| + i) == SlotsFrom(b, i)
    decreases |b| - i
  {
    var p := a + b;
    if i < |b| {
      assert p[|a| + i] == b[i];
      if b[i] == 'L' {
        IndexOfShift(a, b, ';', i);
        var j := IndexOfChar(b, ';', i);
        if j >= 0 {
          SlotsShift(a, b, j + 1);
        }
      } else {
        SlotsShift(a, b, i + 1);
      }
    }
  }

  /** One well-formed type at the front of the text adds exactly one to the count. */
  lemma {:induction false} SlotsOfType(t: FieldType, rest: string)
    requires WellFormedType(t)
    ensures SlotsFrom(Encode(t) + rest, 0) == Plus(SlotsFrom(rest, 0), 1)
  {
    var e := Encode(t);
    var p := e + rest;
    match t
    case Primitive(c) =>
      SlotsShift(e, rest, 0);
    case Object(n) =>
      assert p[|n| + 1] == ';';
      assert ';' !in p[..|n| + 1] by {
        assert p[..|n| + 1] == "L" + n;
      }
      IndexOfFirstOccurrence(p, ';', |n| + 1);
      SlotsShift(e, rest, 0);
    case Array(el) =>
      assert p == "[" + (Encode(el) + rest);
      SlotsShift("[", Encode(el) + rest, 0);
      SlotsOfType(el, rest);
  }

  /** The analyzer counts one register per parameter of a well-formed descriptor. */
  lemma {:induction false} SlotsOfEncoding(ts: seq<FieldType>)
    requires WellFormedTypes(ts)
    ensures SlotsFrom(EncodeAll(ts), 0) == Some(|ts|)
  {
    if ts != [] {
      SlotsOfEncoding(ts[1..]);
      SlotsOfType(ts[0], EncodeAll(ts[1..]));
    }
  }

  /**
   * `long` and `double` parameters are counted as one register each where
   * Dalvik gives them two: the count falls short by the number of wide parameters.
   */
  lemma {:induction false} WideParamsUndercounted(ts: seq<FieldType>)
    requires WellFormedTypes(ts)
    ensures SlotsFrom(EncodeAll(ts), 0) == Some(DalvikSlots(ts) - WideCount(ts))
    ensures WideCount(ts) > 0 ==> SlotsFrom(EncodeAll(ts), 0).value < DalvikSlots(ts)
  {
    SlotsOfEncoding(ts);
    SlotsAndWidths(ts);
  }

  lemma {:induction false} SlotsAndWidths(ts: seq<FieldType>)
    ensures DalvikSlots(ts) == |ts| + WideCount(ts)
  {
    if ts != [] {
      SlotsAndWidths(ts[1..]);
    }
  }

  lemma {:induction false} NoParenInEncoding(ts: seq<FieldType>)
    requires WellFormedTypes(ts)
    ensures ')' !in EncodeAll(ts)
  {
    if ts != [] {
      NoParenInType(ts[0]);
      NoParenInEncoding(ts[1..]);
    }
  }

  lemma {:induction false} NoParenInType(t: FieldType)
    requires WellFormedType(t)
    ensures ')' !in Encode(t)
  {
    match t
    case Primitive(c) =>
    case Object(n) =>
    case Array(e) => NoParenInType(e);
  }

  /**
   * For a declaration `head(params)tail` with well-formed parameter types,
   * `getParamCount` returns the number of parameters plus the receiver
   * (none when "static" occurs on the line).
   */
  lemma ParamCountOfDeclaration(head: string, ts: seq<FieldType>, tail: string)
    requires '(' !in head
    requires WellFormedTypes(ts)
    ensures ParamCount(head + "(" + EncodeAll(ts) + ")" + tail)
         == Some(|ts| + (if Contains(head + "(" + EncodeAll(ts) + ")" + tail, "static") then 0 else 1))
  {
    var enc := EncodeAll(ts);
    var sig := head + "(" + enc + ")" + tail;
    assert sig[..|head|] == head;
    IndexOfFirstOccurrence(sig, '(', |head|);
    var after := SubstringAfter(sig, '(');
    assert after == enc + ")" + tail;
    NoParenInEncoding(ts);
    assert after[..|enc|] == enc;
    IndexOfFirstOccurrence(after, ')', |enc|);
    assert Params(sig) == enc;
    SlotsOfEncoding(ts);
  }
}
