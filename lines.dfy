/**
 * The line-list operations the injector uses on a class's disassembly:
 * `indexOfFirst` with the three line tests it is given, `add(index, line)`
 * and `joinToString("\n")`.
 */
module LineList {
  import opened Strings

  /** The tests the injector hands to `indexOfFirst`. */
  datatype LineTest =
      /** A method declaration naming `name` somewhere on the line. */
    | MethodDeclaring(name: string)
      /** One of the class header directives that open the file. */
    | ClassHeader
      /** A directive `keyword`, possibly indented. */
    | Directive(keyword: string)

  predicate Matches(test: LineTest, line: string) {
    match test
    case MethodDeclaring(name) => Contains(line, ".method") && Contains(line, name)
    case ClassHeader => StartsWith(line, ".source") || StartsWith(line, ".implements") || StartsWith(line, ".super")
    case Directive(keyword) => StartsWith(TrimStart(line), keyword)
  }

  /** `lines.indexOfFirst { test }`: the first index whose line passes, or -1. */
  function IndexOfFirst(lines: seq<string>, test: LineTest): (r: int)
    ensures -1 <= r < |lines|
    ensures r >= 0 ==> Matches(test, lines[r])
    ensures forall j :: 0 <= j < |lines| && (r == -1 || j < r) ==> !Matches(test, lines[j])
  {
    if lines == [] then -1
    else if Matches(test, lines[0]) then 0
    else
      var r := IndexOfFirst(lines[1..], test);
      if r < 0 then -1 else r + 1
  }

  /** Replacing the first passing line by another passing line does not move the search result. */
  lemma IndexOfFirstUpdate(lines: seq<string>, test: LineTest, r: nat, x: string)
    requires r < |lines| && IndexOfFirst(lines, test) == r
    requires Matches(test, x)
    ensures IndexOfFirst(lines[r := x], test) == r
  {
    var s := lines[r := x];
    assert Matches(test, s[r]);
    assert forall j :: 0 <= j < r ==> !Matches(test, s[j]) by {
      forall j | 0 <= j < r ensures !Matches(test, s[j]) {
        assert s[j] == lines[j];
      }
    }
  }

  /** `lines.add(index, line)`: Kotlin throws unless `index <= size`. */
  function Insert(lines: seq<string>, index: nat, line: string): (r: seq<string>)
    requires index <= |lines|
    ensures |r| == |lines| + 1 && r[index] == line
    ensures r[..index] == lines[..index] && r[index + 1..] == lines[index..]
  {
    lines[..index] + [line] + lines[index..]
  }

  /** `lines.joinToString("\n")`: what `writeText` puts in the file. */
  function JoinLines(lines: seq<string>): string {
    if lines == [] then ""
    else if |lines| == 1 then lines[0]
    else lines[0] + "\n" + JoinLines(lines[1..])
  }
}
