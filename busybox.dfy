/**
 * The line-level normalisation that PrepareBusybox applies to every .c and
 * .h file of a Busybox tree before analysis: backslash-continued lines are
 * joined, and each resulting line has its ENABLE_ and IF_ macros rewritten
 * into plain preprocessor conditions on CONFIG_ variables, in the style of
 * Busyfix.
 */
module PrepareBusybox {
  import opened JavaString

  // ---------------------------------------------------------------------
  // Which files are normalised

  /** normalizeDir descends into .h and .c files only. */
  predicate IsNormalizedFileName(name: string) {
    EndsWith(name, ".h") || EndsWith(name, ".c")
  }

  /** normalizeFile leaves font and unicode tables alone. */
  predicate IsSkippedFileName(name: string) {
    Contains(name, "unicode") || Contains(name, ".fnt")
  }

  // ---------------------------------------------------------------------
  // substituteLineContinuation

  /** A line that continues on the next one. */
  predicate IsContinued(s: string) {
    EndsWith(s, "\\")
  }

  /** A line with its continuation backslash, if any, removed. */
  function StripContinuation(s: string): (r: string)
    ensures IsContinued(s) ==> r + "\\" == s
    ensures !IsContinued(s) ==> r == s
  {
    if IsContinued(s) then s[..|s| - 1] else s
  }

  /** The lines a to b, each without its continuation backslash, concatenated. */
  function Chopped(lines: seq<string>, a: nat, b: nat): string
    requires a <= b <= |lines|
    decreases b
  {
    if a == b then "" else Chopped(lines, a, b - 1) + StripContinuation(lines[b - 1])
  }

  /**
   * The lines that follow, given the text of the run of continued lines
   * read so far (open when there is one): a line that does not continue
   * closes the run and is emitted with it as one line; a run still open at
   * the end of the input is emitted as well.
   */
  function JoinFrom(lines: seq<string>, pending: string, open: bool): seq<string>
    decreases |lines|
  {
    if lines == [] then (if open then [pending] else [])
    else if IsContinued(lines[0]) then JoinFrom(lines[1..], pending + StripContinuation(lines[0]), true)
    else [pending + lines[0]] + JoinFrom(lines[1..], "", false)
  }

  /** The lines of a file once its line continuations are substituted. */
  function Joined(lines: seq<string>): seq<string> {
    JoinFrom(lines, "", false)
  }

  /**
   * One of the two inner loops of substituteLineContinuation: the lines
   * start to end concatenated, each stripped of its trailing backslash,
   * except the last one when it does not continue (stripLast is false).
   */
  method ConcatenateRun(inputFile: seq<string>, start: int, end: int, stripLast: bool) returns (toAdd: string)
    requires 0 <= start <= end < |inputFile|
    requires forall k :: start <= k < end ==> IsContinued(inputFile[k])
    requires IsContinued(inputFile[end]) == stripLast
    ensures toAdd == Chopped(inputFile, start, end + 1)
  {
    toAdd := "";
    var j := start;
    while j <= end
      invariant start <= j <= end + 1
      invariant toAdd == Chopped(inputFile, start, j)
    {
      var line := inputFile[j];
      if j != end || stripLast {
        line := line[..|line| - 1]; // remove trailing \
      }
      toAdd := toAdd + line;
      j := j + 1;
    }
  }

  /**
   * substituteLineContinuation: start and end delimit the current run of
   * continued lines (-1 when there is none); a line that does not continue
   * ends the run, and the run is concatenated, without the backslashes,
   * in front of it.
   */
  method SubstituteLineContinuation(inputFile: seq<string>) returns (toReturn: seq<string>)
    ensures toReturn == Joined(inputFile)
  {
    var start := -1;
    var end := -1;
    toReturn := [];
    ghost var pending := "";
    var i := 0;
    while i < |inputFile|
      invariant 0 <= i <= |inputFile|
      invariant start == -1 ==> end == -1 && pending == ""
      invariant start != -1 ==> 0 <= start < i && end == i - 1 && pending == Chopped(inputFile, start, i)
      invariant start != -1 ==> forall k :: start <= k < i ==> IsContinued(inputFile[k])
      invariant toReturn + JoinAt(inputFile, i, pending, start != -1) == JoinAt(inputFile, 0, "", false)
    {
      if IsContinued(inputFile[i]) {
        assert JoinAt(inputFile, i, pending, start != -1)
            == JoinAt(inputFile, i + 1, pending + StripContinuation(inputFile[i]), true);
        if start == -1 {
          start := i;
        }
        end := i;
        pending := pending + StripContinuation(inputFile[i]);
      } else {
        end := i;
        ghost var done := toReturn;
        assert JoinAt(inputFile, i, pending, start != -1)
            == [pending + inputFile[i]] + JoinAt(inputFile, i + 1, "", false);
        if start != -1 {
          var toAdd := ConcatenateRun(inputFile, start, end, false);
          assert toAdd == pending + inputFile[i];
          toReturn := toReturn + [toAdd];
          start := -1;
          end := -1;
        } else {
          assert pending + inputFile[i] == inputFile[i];
          toReturn := toReturn + [inputFile[i]];
          start := -1;
          end := -1;
        }
        AppendOne(done, toReturn[|done|], JoinAt(inputFile, i + 1, "", false));
        pending := "";
      }
      i := i + 1;
    }
    // a run of continued lines at the end of the file
    if start != -1 {
      var toAdd := ConcatenateRun(inputFile, start, end, true);
      assert toAdd == pending;
      toReturn := toReturn + [toAdd];
    } else {
      assert toReturn + [] == toReturn;
    }
    assert toReturn == JoinAt(inputFile, 0, "", false);
    JoinAtIsJoinFrom(inputFile, 0, "", false);
    assert inputFile[0..] == inputFile;
  }

  /** Sequence concatenation regrouped, as the loop above needs it. */
  lemma AppendOne(done: seq<string>, x: string, more: seq<string>)
    ensures (done + [x]) + more == done + ([x] + more)
  {
  }

  /** JoinFrom over the lines from index i on, without taking the slice. */
  function JoinAt(lines: seq<string>, i: nat, pending: string, open: bool): seq<string>
    requires i <= |lines|
    decreases |lines| - i
  {
    if i == |lines| then (if open then [pending] else [])
    else if IsContinued(lines[i]) then JoinAt(lines, i + 1, pending + StripContinuation(lines[i]), true)
    else [pending + lines[i]] + JoinAt(lines, i + 1, "", false)
  }

  /** The two readings of the joining agree. */
  lemma {:induction false} JoinAtIsJoinFrom(lines: seq<string>, i: nat, pending: string, open: bool)
    requires i <= |lines|
    ensures JoinAt(lines, i, pending, open) == JoinFrom(lines[i..], pending, open)
    decreases |lines| - i
  {
    if i < |lines| {
      assert lines[i..][1..] == lines[i + 1..];
      if IsContinued(lines[i]) {
        JoinAtIsJoinFrom(lines, i + 1, pending + StripContinuation(lines[i]), true);
      } else {
        JoinAtIsJoinFrom(lines, i + 1, "", false);
      }
    }
  }

  // ---------------------------------------------------------------------
  // The macro rewrites

  /** doNotNormalizeDefUndef: #define and #undef lines are never rewritten. */
  predicate IsDefineOrUndef(line: string) {
    Contains(line, "#undef") || Contains(line, "#define") || Contains(line, "# define") || Contains(line, "# undef")
  }

  /** normalizeDefinedEnableMacro */
  function NormalizeDefinedEnableMacro(line: string): string {
    Replace(line, "defined ENABLE_", "defined CONFIG_")
  }

  /** One statement of normalizeEnableMacro: replace target when the trigger occurs. */
  function RewriteIfContains(s: string, trigger: string, target: string, replacement: string): string
    requires |target| > 0
  {
    if Contains(s, trigger) then Replace(s, target, replacement) else s
  }

  /**
   * normalizeEnableMacro: six rewrites in turn, each applied to the result
   * of the one before it and only when its trigger occurs there; the last
   * four replace every ENABLE_ (or !ENABLE_) of the line, not just the one
   * after the operator.
   */
  function NormalizeEnableMacro(line: string): string {
    var t1 := RewriteIfContains(line, "if ENABLE_", "if ENABLE_", "if defined CONFIG_");
    var t2 := RewriteIfContains(t1, "if !ENABLE_", "if !ENABLE_", "if !defined CONFIG_");
    var t3 := RewriteIfContains(t2, "|| ENABLE_", "ENABLE_", "defined CONFIG_");
    var t4 := RewriteIfContains(t3, "&& ENABLE_", "ENABLE_", "defined CONFIG_");
    var t5 := RewriteIfContains(t4, "|| !ENABLE_", "!ENABLE_", "!defined CONFIG_");
    RewriteIfContains(t5, "&& !ENABLE_", "!ENABLE_", "!defined CONFIG_")
  }

  /** The block normalizeEnableInline puts after an inline ENABLE_ condition. */
  const InlineBlock := "\n1\n#else\n0\n#endif\n"

  /**
   * StringBuilder.insert at k, where an index outside the text (the -1 of a
   * failed indexOf) makes the source fall back on appending.
   */
  function InsertOrAppend(s: string, k: int, t: string): (r: string)
    ensures |r| == |s| + |t|
  {
    if 0 <= k <= |s| then s[..k] + t + s[k..] else s + t
  }

  /**
   * Where normalizeEnableInline puts its block in l, the line with its
   * ENABLE_ already replaced: before the first ')' after the macro when the
   * line is an "if (" test, and otherwise before the first ' ' or ',' after
   * it; when a ')' comes first, the position of the ',' is taken (-1, and so
   * the end of the line, when there is none).
   */
  function InlinePosition(l: string): int {
    var from := IndexOf(l, "defined CONFIG_") + 10;
    if Contains(l, "if (\n#if defined CONFIG_") then IndexOfFrom(l, ")", from)
    else
      var indexOfWhitespace := IndexOfFrom(l, " ", from);
      var indexOfComma := IndexOfFrom(l, ",", from);
      var indexOfParenthesis := IndexOfFrom(l, ")", from);
      var k1 := indexOfWhitespace;
      var k2 := if indexOfComma != -1 && (indexOfComma < k1 || k1 == -1) then indexOfComma else k1;
      if indexOfParenthesis != -1 && (indexOfParenthesis < k2 || k2 == -1) then indexOfComma else k2
  }

  /** Every ENABLE_ of the line replaced by a line break and #if defined CONFIG_. */
  function EnableAsIf(line: string): string {
    Replace(line, "ENABLE_", "\n#if defined CONFIG_")
  }

  /**
   * normalizeEnableInline: an ENABLE_ used as an expression becomes an
   * #if defined CONFIG_ block whose branches are 1 and 0.
   */
  function NormalizeEnableInline(line: string): string {
    if Contains(line, "_ENABLE_") || Contains(line, "#if") then line
    else if !Contains(line, "ENABLE_") then line
    else
      var l := EnableAsIf(line);
      InsertOrAppend(l, InlinePosition(l), InlineBlock)
  }

  // ---------------------------------------------------------------------
  // normalizeIf

  /** How a character moves the parenthesis depth. */
  function Delta(c: char): int {
    if c == '(' then 1 else if c == ')' then -1 else 0
  }

  /** Opening minus closing parentheses in s[i..j]. */
  function Balance(s: string, i: nat, j: nat): int
    requires i <= j <= |s|
    decreases j - i
  {
    if i == j then 0 else Delta(s[i]) + Balance(s, i + 1, j)
  }

  /**
   * The scan for the parenthesis that closes an open one: starting at i
   * with depth parentheses open, the first index at which the depth would
   * drop below zero, or -1 when the text ends first.
   */
  function ScanClose(s: string, i: nat, depth: nat): (r: int)
    decreases |s| - i
    ensures r == -1 || (i <= r < |s| && s[r] == ')' && depth + Balance(s, i, r + 1) == -1)
    ensures forall j :: i <= j <= |s| && (r == -1 || j <= r) ==> depth + Balance(s, i, j) >= 0
  {
    if i >= |s| then -1
    else if s[i] == '(' then ScanClose(s, i + 1, depth + 1)
    else if s[i] == ')' then (if depth == 0 then i else ScanClose(s, i + 1, depth - 1))
    else ScanClose(s, i + 1, depth)
  }

  /**
   * Where normalizeIf takes the argument of the IF_ macro to end: the
   * parenthesis matching the one at opening, or the last character of the
   * line when it has none.
   */
  function ClosingIndex(s: string, opening: int): (r: int)
    requires opening >= -1 && |s| > 0
    ensures opening < r < |s| || r == |s| - 1
  {
    var k := ScanClose(s, opening + 1, 0);
    if k == -1 then |s| - 1 else k
  }

  /** The #if that replaces the IF_ (or IF_NOT_) macro name. */
  function IfGuard(head: string): string {
    if Contains(head, "IF_NOT_") then Replace(head, "IF_NOT_", "\n#if !defined CONFIG_")
    else if Contains(head, "IF_") then Replace(head, "IF_", "\n#if defined CONFIG_")
    else head
  }

  /**
   * The line cut around the argument of its IF_ macro: the text before the
   * opening parenthesis, the argument with that parenthesis, and the rest of
   * the line after the closing one (behind a line break). Without a
   * parenthesis after the macro the whole line is the head.
   */
  datatype IfParts = IfParts(head: string, variable: string, init: string)

  function SplitAtArgument(line: string): IfParts {
    var opening := IndexOfFrom(line, "(", IndexOf(line, "IF_"));
    if Contains(line, "(") && Contains(line, ")") && opening >= 0 then
      var closing := ClosingIndex(line, opening);
      IfParts(line[..opening], line[opening..closing], "\n" + line[closing + 1..])
    else IfParts(line, "", "")
  }

  /**
   * normalizeIf, as a function of the line: IF_X(code) becomes a block
   * #if defined CONFIG_X, code, #endif, with the rest of the line after
   * the closing parenthesis on a line of its own after the #endif.
   */
  function IfNormalized(line: string): string {
    if !Contains(line, "IF_") then line
    else
      var p := SplitAtArgument(line);
      IfGuard(p.head) + "\n" + (if |p.variable| != 0 then p.variable[1..] else "") + "\n#endif" + p.init
  }

  /** The paren-counting loop of normalizeIf, over the line's characters. */
  method FindClosingParenthesis(chars: array<char>, indexOpening: int) returns (indexClosing: int)
    requires indexOpening >= -1 && chars.Length > 0
    ensures indexClosing == ClosingIndex(chars[..], indexOpening)
  {
    indexClosing := chars.Length - 1;
    var openingCount := 0;
    var i := indexOpening + 1;
    while i < chars.Length
      invariant indexOpening + 1 <= i
      invariant ScanClose(chars[..], i, openingCount) == ScanClose(chars[..], indexOpening + 1, 0)
    {
      if chars[i] == '(' {
        openingCount := openingCount + 1;
      } else if chars[i] == ')' {
        if openingCount == 0 {
          indexClosing := i;
          break;
        }
        openingCount := openingCount - 1;
      }
      i := i + 1;
    }
  }

  /** String.toCharArray: a new array holding the characters of s. */
  method ToCharArray(s: string) returns (chars: array<char>)
    ensures fresh(chars) && chars[..] == s
  {
    chars := new char[|s|](k requires 0 <= k < |s| => s[k]);
  }

  /**
   * The first half of normalizeIf: when the line has both parentheses, the
   * argument after the macro is cut out with the paren-counting loop.
   */
  method SplitArgument(line: string) returns (l: string, variable: string, init: string)
    ensures IfParts(l, variable, init) == SplitAtArgument(line)
  {
    l := line;
    variable := "";
    init := "";
    if Contains(l, "(") && Contains(l, ")") {
      var indexOpening := IndexOfFrom(l, "(", IndexOf(l, "IF_"));
      var chars := ToCharArray(l);
      var indexClosing := FindClosingParenthesis(chars, indexOpening);
      assert indexClosing == ClosingIndex(line, indexOpening);
      if indexOpening >= 0 && indexClosing >= 0 {
        assert SplitAtArgument(line)
            == IfParts(line[..indexOpening], line[indexOpening..indexClosing], "\n" + line[indexClosing + 1..]);
        variable := l[indexOpening..indexClosing];
        init := "\n" + l[indexClosing + 1..];
        l := l[..indexOpening];
      }
    }
  }

  /** normalizeIf */
  method NormalizeIf(line: string) returns (toRet: string)
    ensures toRet == IfNormalized(line)
  {
    if !Contains(line, "IF_") {
      return line;
    }
    var l, variable, init := SplitArgument(line);
    ghost var head := l;
    if Contains(l, "IF_NOT_") {
      l := Replace(l, "IF_NOT_", "\n#if !defined CONFIG_");
    } else if Contains(l, "IF_") {
      l := Replace(l, "IF_", "\n#if defined CONFIG_");
    }
    assert l == IfGuard(head);
    toRet := l + "\n";
    if |variable| != 0 {
      toRet := toRet + variable[1..];
    } else {
      assert toRet == l + "\n" + "";
    }
    toRet := toRet + "\n#endif" + init;
  }

  // ---------------------------------------------------------------------
  // normalizeLine

  /** The two lines of scripts/basic/fixdep.c whose comments confuse the rewrites. */
  predicate IsFixdepLine(line: string) {
    Contains(line, "if (!memcmp(p, \"IF_NOT\", 6)) goto conf7")
    || Contains(line, "/*if (!memcmp(p, \"IF_\", 3)) ...*/")
  }

  /** The four rewrites normalizeLine applies to code outside comments, in order. */
  function RewriteMacros(line: string): string {
    if IsFixdepLine(line) then line
    else IfNormalized(NormalizeEnableInline(NormalizeEnableMacro(NormalizeDefinedEnableMacro(line))))
  }

  /** The text normalizeLine searches for a leading '*': the line trimmed, with backslash-t read as a space. */
  function Detabbed(line: string): string {
    Trim(Replace(line, "\\t", " "))
  }

  /** A line that mentions a block comment, or continues one with a leading '*'. */
  predicate MentionsBlockComment(line: string) {
    Contains(line, "/*") || Contains(line, "*/") || StartsWith(Detabbed(line), "*")
  }

  /** A line that begins inside a block comment. */
  predicate StartsInBlockComment(line: string) {
    StartsWith(Detabbed(line), "/*") || StartsWith(Detabbed(line), "*")
  }

  /**
   * normalizeLine: #define and #undef lines are kept; a line comment, and
   * the text of a block comment, are kept verbatim while the code before
   * (or after) them is normalised.
   */
  function NormalizeLine(line: string): string
    decreases |line|, 1
  {
    if |line| == 0 then line
    else if IsDefineOrUndef(line) then line
    else if Contains(line, "//") then
      var index := IndexOf(line, "//");
      NormalizeLine(line[..index]) + line[index..]
    else NormalizeBlockComments(line)
  }

  /** The rest of normalizeLine, on a line without a line comment. */
  function NormalizeBlockComments(line: string): string
    decreases |line|, 0
  {
    if MentionsBlockComment(line) && StartsInBlockComment(line) then
      if !Contains(line, "*/") then line
      else
        var k := IndexOf(line, "*/");
        line[..k + 2] + NormalizeLine(line[k + 2..])
    else if MentionsBlockComment(line) && Contains(line, "/*") then
      var k := IndexOf(line, "/*");
      NormalizeLine(line[..k]) + line[k..]
    else RewriteMacros(line)
  }

  /**
   * What normalizeFile writes for a .c or .h file: its lines with the
   * continuations substituted, each normalised; font and unicode tables
   * are left as they are.
   */
  function NormalizedFile(name: string, lines: seq<string>): seq<string> {
    if IsSkippedFileName(name) then lines
    else var joined := Joined(lines); seq(|joined|, k requires 0 <= k < |joined| => NormalizeLine(joined[k]))
  }

  // ---------------------------------------------------------------------
  // normalizeDir

  /** A directory tree as normalizeDir lists it: directories and files read as lines. */
  datatype Node = Directory(name: string, children: seq<Node>) | TextFile(name: string, lines: seq<string>)

  /**
   * normalizeDir: descend into every directory and rewrite every file whose
   * name ends in .h or .c as normalizeFile does; other files stay as they are.
   */
  function NormalizedDir(n: Node): Node {
    match n
    case Directory(name, children) =>
      Directory(name, seq(|children|, k requires 0 <= k < |children| => NormalizedDir(children[k])))
    case TextFile(name, lines) =>
      if IsNormalizedFileName(name) then TextFile(name, NormalizedFile(name, lines)) else n
  }
}
