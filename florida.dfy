/**
 * The FLOrIDA preparation: copies a source tree and rewrites the FLOrIDA
 * annotations //&begin[F], //&end[F] and //&Line[F] of every .c, .cpp and .h
 * file into C preprocessor conditionals, while checking the annotations
 * against the file's own #if / #elif / #else / #endif structure.
 *
 * The first half of the module is the specification: pure functions that
 * say what one line, one file and one tree do to the translator's state.
 * The second half is the class FloridaPreparation, whose fields and methods
 * follow the Java class, each method proved equal to its specification.
 */
module Florida {
  import opened JavaString

  datatype Option<T> = None | Some(value: T)

  /** The level a message is logged at. */
  datatype Level = Warning | Error

  /** One logged message; every argument of a log call is one line. */
  datatype Diagnostic = Diagnostic(level: Level, lines: seq<string>)

  /** One level of native preprocessor nesting, opened on the line lineStart. */
  datatype CppBlock = CppBlock(lineStart: int, numOpeningFlorida: nat, numClosingFlorida: nat)

  /** What the text after "//&" says. */
  datatype Directive = Begin(feature: string) | End(feature: string) | Line(feature: string) | Unknown

  /**
   * The translator's state while it reads a file: the fields that live
   * through the whole run (the feature stack, the pending Line close, the
   * log) and the two that belong to the file being read (the stack of
   * preprocessor blocks, top first, and the lines written so far, each of
   * which is followed by "\n" in the file).
   */
  datatype Machine = Machine(
    featureStack: seq<string>,
    closeLine: Option<string>,
    log: seq<Diagnostic>,
    blocks: seq<CppBlock>,
    out: seq<string>)

  // ---------------------------------------------------------------------
  // The annotation parser

  /** \w of a Java regular expression */
  predicate IsWordChar(c: char) {
    'a' <= c <= 'z' || 'A' <= c <= 'Z' || c == '_' || '0' <= c <= '9'
  }

  /** A match of \w+ */
  predicate IsWord(f: string) {
    |f| > 0 && forall i :: 0 <= i < |f| ==> IsWordChar(f[i])
  }

  /**
   * A full match of the pattern prefix (\w+) ] against the whole condition,
   * giving the group on success.
   */
  function MatchBracketed(prefix: string, condition: string): (r: Option<string>)
    ensures r.Some? ==> IsWord(r.value) && condition == prefix + r.value + "]"
  {
    if StartsWith(condition, prefix) && |condition| >= |prefix| + 2
       && condition[|condition| - 1] == ']' && IsWord(condition[|prefix|..|condition| - 1])
    then
      var f := condition[|prefix|..|condition| - 1];
      assert condition == condition[..|prefix|] + f + [condition[|condition| - 1]];
      Some(f)
    else None
  }

  /** The three patterns, tried in the order end[], begin[], Line[]. */
  function Parse(condition: string): (d: Directive)
    ensures d.End? ==> IsWord(d.feature) && condition == "end[" + d.feature + "]"
    ensures d.Begin? ==> IsWord(d.feature) && condition == "begin[" + d.feature + "]"
    ensures d.Line? ==> IsWord(d.feature) && condition == "Line[" + d.feature + "]"
  {
    match MatchBracketed("end[", condition)
    case Some(f) => End(f)
    case None =>
      match MatchBracketed("begin[", condition)
      case Some(f) => Begin(f)
      case None =>
        match MatchBracketed("Line[", condition)
        case Some(f) => Line(f)
        case None => Unknown
  }

  /** The replacement of begin[F] and Line[F] */
  function BeginText(feature: string): string {
    "#if defined(" + feature + ")"
  }

  /** The replacement of end[F], and the synthetic close of Line[F] */
  function EndText(feature: string): string {
    "#endif // " + feature
  }

  /** The line written for a condition that matches no pattern */
  function ErrorText(condition: string): string {
    "// Error replacing FLOrIDA condition: //&" + condition
  }

  /** How the current file reads in a message: a path, or "null" between files. */
  function FileText(file: Option<string>): string {
    match file
    case Some(path) => path
    case None => "null"
  }

  function FeatureMismatch(file: string, n: int, got: string, expected: string): Diagnostic {
    Diagnostic(Warning, [
      "begin[] and end[] block features don't match in " + file + " in line " + IntToString(n),
      "Got //&end[" + got + "], expected //&end[" + expected + "]"])
  }

  function UnknownCondition(file: string, n: int, condition: string): Diagnostic {
    Diagnostic(Error, ["Unknown FLOrIDA condition in " + file + " in line " + IntToString(n) + ":", condition])
  }

  function CountMismatch(file: string, b: CppBlock): Diagnostic {
    Diagnostic(Warning, [
      "CppBlock in " + file + " in line " + IntToString(b.lineStart) + " has "
      + NatToString(b.numOpeningFlorida) + " opening and " + NatToString(b.numClosingFlorida)
      + " closing FLOrIDA statements"])
  }

  function ClosingWithoutOpening(file: string, b: CppBlock): Diagnostic {
    Diagnostic(Warning, [
      "CppBlock in " + file + " in line " + IntToString(b.lineStart)
      + " has a closing FLOrIDA statement without a prior opening one"])
  }

  /**
   * The outcome of replacing one condition: the new state and the
   * replacement line, or the NoSuchElementException that popping an empty
   * feature stack throws.
   */
  datatype Replacement = Replaced(m: Machine, text: string) | NoSuchElement

  /** getReplacement, on the state m, for line n of file */
  function ReplacementOf(m: Machine, file: string, n: int, condition: string): (r: Replacement)
    ensures r.Replaced? ==> r.m.blocks == m.blocks && r.m.out == m.out
    ensures r.NoSuchElement? <==> Parse(condition).End? && m.featureStack == []
  {
    match Parse(condition)
    case End(feature) =>
      if m.featureStack == [] then NoSuchElement
      else
        var expected := m.featureStack[0];
        var log := if feature != expected then m.log + [FeatureMismatch(file, n, feature, expected)] else m.log;
        Replaced(m.(featureStack := m.featureStack[1..], log := log), EndText(feature))
    case Begin(feature) =>
      Replaced(m.(featureStack := [feature] + m.featureStack), BeginText(feature))
    case Line(feature) =>
      Replaced(m.(closeLine := Some(feature)), BeginText(feature))
    case Unknown =>
      Replaced(m.(log := m.log + [UnknownCondition(file, n, condition)]), ErrorText(condition))
  }

  // ---------------------------------------------------------------------
  // The block consistency tracker

  /**
   * popBlock: drops the top block, if there is one, and warns when its
   * FLOrIDA openings and closings differ.
   */
  function PopResult(m: Machine, file: string): (r: Machine)
    ensures r == m.(blocks := r.blocks, log := r.log)
    ensures m.blocks == [] ==> r == m
    ensures m.blocks != [] ==> r.blocks == m.blocks[1..]
    ensures m.blocks != [] ==>
      r.log == m.log + (if m.blocks[0].numOpeningFlorida != m.blocks[0].numClosingFlorida
                        then [CountMismatch(file, m.blocks[0])] else [])
  {
    if m.blocks == [] then m
    else
      var b := m.blocks[0];
      var log := if b.numOpeningFlorida != b.numClosingFlorida then m.log + [CountMismatch(file, b)] else m.log;
      m.(blocks := m.blocks[1..], log := log)
  }

  /**
   * onFloridaBlock: a replacement starting with #if counts an opening on the
   * top block, one starting with #endif counts a closing and warns when the
   * closings now outnumber the openings; with no open block nothing happens.
   */
  function FloridaCount(m: Machine, file: string, replacement: string): (r: Machine)
    ensures r == m.(blocks := r.blocks, log := r.log)
    ensures |r.blocks| == |m.blocks|
    ensures m.blocks != [] ==> r.blocks[1..] == m.blocks[1..] && r.blocks[0].lineStart == m.blocks[0].lineStart
  {
    if m.blocks == [] then m
    else
      var b := m.blocks[0];
      if StartsWith(replacement, "#if") then
        m.(blocks := [b.(numOpeningFlorida := b.numOpeningFlorida + 1)] + m.blocks[1..])
      else if StartsWith(replacement, "#endif") then
        var b' := b.(numClosingFlorida := b.numClosingFlorida + 1);
        var log := if b'.numClosingFlorida > b'.numOpeningFlorida then m.log + [ClosingWithoutOpening(file, b')] else m.log;
        m.(blocks := [b'] + m.blocks[1..], log := log)
      else m
  }

  /** onFloridaBlock does not look at the lines written so far. */
  lemma FloridaCountIgnoresOut(m: Machine, file: string, replacement: string)
    ensures FloridaCount(m, file, replacement) == FloridaCount(m.(out := []), file, replacement).(out := m.out)
  {
  }

  /**
   * A native directive, with its spaces removed: #if* opens a block, #el*
   * replaces the top block, #endif closes it; others change nothing.
   */
  function NativeDirective(m: Machine, file: string, n: int, directive: string): Machine {
    if StartsWith(directive, "#if") then
      m.(blocks := [CppBlock(n, 0, 0)] + m.blocks)
    else if StartsWith(directive, "#el") then
      var p := PopResult(m, file);
      p.(blocks := [CppBlock(n, 0, 0)] + p.blocks)
    else if StartsWith(directive, "#endif") then
      PopResult(m, file)
    else m
  }

  /** The bookkeeping of a native directive does not look at the lines written so far. */
  lemma NativeDirectiveIgnoresOut(m: Machine, file: string, n: int, directive: string)
    ensures NativeDirective(m, file, n, directive) == NativeDirective(m.(out := []), file, n, directive).(out := m.out)
  {
  }

  // ---------------------------------------------------------------------
  // The line transformer

  function Written(m: Machine, line: string): Machine {
    m.(out := m.out + [line])
  }

  /** The synthetic close of a Line[F] read on the previous line, if any. */
  function ClosePending(m: Machine, file: string, pending: Option<string>): Machine {
    match pending
    case None => m
    case Some(feature) => Written(FloridaCount(m, file, EndText(feature)), EndText(feature))
  }

  /**
   * What becomes of one line read from a file: the line to write in its
   * place and the new state, or Threw when getReplacement threw.
   */
  datatype Translation = Translated(m: Machine, line: string) | Threw

  /**
   * The first half of the loop body of copySourceFile, for line n of file:
   * an annotation is replaced and counted against the innermost native
   * block; any other line is kept, and a native directive among them
   * updates the block structure.
   */
  function Translate(m: Machine, file: string, n: int, line: string): (t: Translation)
    ensures t.Translated? ==> t.m.out == m.out
    ensures !StartsWith(Trim(line), "//&") ==>
      t.Translated? && t.line == line && t.m.featureStack == m.featureStack && t.m.closeLine == m.closeLine
  {
    var trimmed := Trim(line);
    if StartsWith(trimmed, "//&") then
      match ReplacementOf(m, file, n, trimmed[3..])
      case NoSuchElement => Threw
      case Replaced(m2, text) => Translated(FloridaCount(m2, file, text), text)
    else if StartsWith(trimmed, "#") then
      Translated(NativeDirective(m, file, n, Replace(trimmed, " ", "")), line)
    else
      Translated(m, line)
  }

  /** Translate does not look at the lines written so far. */
  lemma TranslateIgnoresOut(m: Machine, file: string, n: int, line: string)
    ensures Translate(m, file, n, line).Threw? <==> Translate(m.(out := []), file, n, line).Threw?
    ensures Translate(m, file, n, line).Translated? ==>
      Translate(m, file, n, line)
      == var t := Translate(m.(out := []), file, n, line); Translated(t.m.(out := m.out), t.line)
  {
    var trimmed := Trim(line);
    if StartsWith(trimmed, "//&") {
      match ReplacementOf(m.(out := []), file, n, trimmed[3..])
      case NoSuchElement =>
      case Replaced(m2, text) =>
        FloridaCountIgnoresOut(m2.(out := m.out), file, text);
    } else if StartsWith(trimmed, "#") {
      NativeDirectiveIgnoresOut(m, file, n, Replace(trimmed, " ", ""));
    }
  }

  /** The outcome of one line: the next state, or the state when getReplacement threw. */
  datatype StepResult = Next(m: Machine) | Thrown(m: Machine)

  /**
   * One iteration of the loop of copySourceFile, for line n (counted from
   * 1): the pending close of a Line[] is taken off the state, the line is
   * translated and written, and then the close, if there was one, is
   * counted and written after it.
   */
  function Step(m: Machine, file: string, n: int, line: string): StepResult {
    var m1 := m.(closeLine := None);
    match Translate(m1, file, n, line)
    case Threw => Thrown(m1)
    case Translated(m2, text) => Next(ClosePending(Written(m2, text), file, m.closeLine))
  }

  /** Step, through the translation of the line on a state without the lines written so far. */
  lemma StepOfLine(m: Machine, file: string, n: int, line: string)
    ensures var t := Translate(m.(closeLine := None, out := []), file, n, line);
            (t.Threw? ==> Step(m, file, n, line) == Thrown(m.(closeLine := None)))
            && (t.Translated? ==>
                  Step(m, file, n, line) == Next(ClosePending(Written(t.m.(out := m.out), t.line), file, m.closeLine)))
  {
    TranslateIgnoresOut(m.(closeLine := None), file, n, line);
  }

  /** The outcome of a file: it reached its end, or it threw on line lineNumber. */
  datatype FileOutcome = Completed(m: Machine) | Aborted(m: Machine, lineNumber: int)

  /**
   * The loop of copySourceFile over the lines read so far, the first of
   * them numbered 1: it stops at the first line that throws.
   */
  function Run(m: Machine, file: string, lines: seq<string>): FileOutcome
    decreases |lines|
  {
    if lines == [] then Completed(m)
    else
      match Run(m, file, lines[..|lines| - 1])
      case Aborted(m', n) => Aborted(m', n)
      case Completed(m') =>
        match Step(m', file, |lines|, lines[|lines| - 1])
        case Thrown(m'') => Aborted(m'', |lines|)
        case Next(m'') => Completed(m'')
  }

  /** Reading one more line: the line with index i is step i + 1. */
  lemma RunExtend(m: Machine, file: string, lines: seq<string>, i: nat)
    requires i < |lines|
    ensures Run(m, file, lines[..i + 1])
         == match Run(m, file, lines[..i])
            case Aborted(m', n) => Aborted(m', n)
            case Completed(m') =>
              match Step(m', file, i + 1, lines[i])
              case Thrown(m'') => Aborted(m'', i + 1)
              case Next(m'') => Completed(m'')
  {
    assert lines[..i + 1][..i] == lines[..i];
  }

  /** A file that completes completed every line before its last, and the last line stepped on. */
  lemma RunCompletedLast(m: Machine, file: string, lines: seq<string>)
    requires |lines| > 0 && Run(m, file, lines).Completed?
    ensures var before := Run(m, file, lines[..|lines| - 1]);
      before.Completed? && Step(before.m, file, |lines|, lines[|lines| - 1]) == Next(Run(m, file, lines).m)
  {
  }

  /** Once a line has thrown, the lines after it are never read. */
  lemma {:induction false} RunAbortedStays(m: Machine, file: string, lines: seq<string>, k: nat)
    requires k <= |lines| && Run(m, file, lines[..k]).Aborted?
    ensures Run(m, file, lines) == Run(m, file, lines[..k])
    decreases |lines| - k
  {
    if k == |lines| {
      assert lines[..k] == lines;
    } else {
      RunExtend(m, file, lines, k);
      RunAbortedStays(m, file, lines, k + 1);
    }
  }

  /** copySourceFile: the file starts with no open block and nothing written. */
  function TransformFile(session: Machine, file: string, lines: seq<string>): FileOutcome {
    Run(session.(blocks := [], out := []), file, lines)
  }

  // ---------------------------------------------------------------------
  // The tree walk

  /** A file of the source tree, by path, with its lines. */
  datatype SourceFile = SourceFile(name: string, lines: seq<string>)

  /** The files that copy hands to copySourceFile; all others are copied as they are. */
  predicate IsSourceFileName(name: string) {
    EndsWith(name, ".c") || EndsWith(name, ".cpp") || EndsWith(name, ".h")
  }

  /** The files written so far, the state, and whether an exception ended the walk. */
  datatype CopyOutcome = CopyOutcome(written: seq<SourceFile>, session: Machine, aborted: bool)

  /** What copy does to one source file: copySourceFile, or a stand-in for it. */
  type FileTransform = (Machine, string, seq<string>) -> FileOutcome

  /**
   * copy over the files from index i on, with the files already written,
   * handing every source file to transform.
   */
  function CopyFrom(transform: FileTransform, session: Machine, files: seq<SourceFile>, i: nat,
                    written: seq<SourceFile>): CopyOutcome
    requires i <= |files|
    decreases |files| - i
  {
    if i == |files| then CopyOutcome(written, session, false)
    else if IsSourceFileName(files[i].name) then
      match transform(session, files[i].name, files[i].lines)
      case Aborted(m, _) =>
        CopyOutcome(written + [SourceFile(files[i].name, m.out)], m.(blocks := [], out := []), true)
      case Completed(m) =>
        CopyFrom(transform, m.(blocks := [], out := []), files, i + 1, written + [SourceFile(files[i].name, m.out)])
    else
      CopyFrom(transform, session, files, i + 1, written + [files[i]])
  }

  /** copy over a whole list of files, starting from the state session. */
  function CopyAll(session: Machine, files: seq<SourceFile>): CopyOutcome {
    CopyFrom(TransformFile, session, files, 0, [])
  }

  // ---------------------------------------------------------------------
  // The class

  class FloridaPreparation {
    /** The features of the open begin[] blocks, innermost first */
    var featureStack: seq<string>
    /** The feature of a Line[] whose close is still to be written */
    var closeLine: Option<string>
    var currentFile: Option<string>
    var currentLineNumber: int
    /** The warnings and errors logged, oldest first */
    var log: seq<Diagnostic>

    constructor ()
      ensures featureStack == [] && closeLine == None && log == []
      ensures currentFile == None && currentLineNumber == 0
    {
      featureStack := [];
      closeLine := None;
      currentFile := None;
      currentLineNumber := 0;
      log := [];
    }

    /** The part of the state that lives from one file to the next */
    function Session(): Machine
      reads this
    {
      Machine(featureStack, closeLine, log, [], [])
    }

    /** getReplacement; None is the NoSuchElementException of an empty featureStack.pop(). */
    method GetReplacement(condition: string) returns (result: Option<string>)
      modifies this`featureStack, this`closeLine, this`log
      ensures var r := ReplacementOf(old(Session()), FileText(currentFile), currentLineNumber, condition);
              match r
              case NoSuchElement =>
                result == None && featureStack == old(featureStack) && closeLine == old(closeLine) && log == old(log)
              case Replaced(m, text) =>
                result == Some(text) && featureStack == m.featureStack && closeLine == m.closeLine && log == m.log
    {
      result := None;
      match Parse(condition)
      case End(feature) =>
        if featureStack == [] {
          return;
        }
        var expectedFeature := featureStack[0];
        featureStack := featureStack[1..];
        if feature != expectedFeature {
          log := log + [FeatureMismatch(FileText(currentFile), currentLineNumber, feature, expectedFeature)];
        }
        result := Some(EndText(feature));
      case Begin(feature) =>
        featureStack := [feature] + featureStack;
        result := Some(BeginText(feature));
      case Line(feature) =>
        closeLine := Some(feature);
        result := Some(BeginText(feature));
      case Unknown =>
        log := log + [UnknownCondition(FileText(currentFile), currentLineNumber, condition)];
        result := Some(ErrorText(condition));
    }

    /** popBlock */
    method PopBlock(blockStructure: seq<CppBlock>) returns (rest: seq<CppBlock>)
      modifies this`log
      ensures var m := PopResult(Machine(featureStack, closeLine, old(log), blockStructure, []), FileText(currentFile));
              rest == m.blocks && log == m.log
    {
      rest := blockStructure;
      if rest != [] {
        var block := rest[0];
        rest := rest[1..];
        if block.numOpeningFlorida != block.numClosingFlorida {
          log := log + [CountMismatch(FileText(currentFile), block)];
        }
      }
    }

    /** onFloridaBlock; the top block is blockStructure[0]. */
    method OnFloridaBlock(blockStructure: seq<CppBlock>, floridaReplacement: string) returns (blocks: seq<CppBlock>)
      modifies this`log
      ensures var m := FloridaCount(Machine(featureStack, closeLine, old(log), blockStructure, []),
                                    FileText(currentFile), floridaReplacement);
              blocks == m.blocks && log == m.log
    {
      blocks := blockStructure;
      if blocks != [] {
        var block := blocks[0];
        if StartsWith(floridaReplacement, "#if") {
          block := block.(numOpeningFlorida := block.numOpeningFlorida + 1);
          blocks := [block] + blocks[1..];
        } else if StartsWith(floridaReplacement, "#endif") {
          block := block.(numClosingFlorida := block.numClosingFlorida + 1);
          blocks := [block] + blocks[1..];
          if block.numClosingFlorida > block.numOpeningFlorida {
            log := log + [ClosingWithoutOpening(FileText(currentFile), block)];
          }
        }
      }
    }

    /**
     * The first half of the loop body of copySourceFile for a line it read,
     * with the block structure so far: thrown when getReplacement threw,
     * otherwise the new block structure and the line to write.
     */
    method TranslateLine(blockStructure: seq<CppBlock>, line: string)
      returns (thrown: bool, blocks: seq<CppBlock>, newLine: string)
      modifies this`featureStack, this`log, this`closeLine
      ensures var t := Translate(Machine(old(featureStack), old(closeLine), old(log), blockStructure, []),
                                 FileText(currentFile), currentLineNumber, line);
              thrown == t.Threw?
              && (thrown ==> featureStack == old(featureStack) && closeLine == old(closeLine) && log == old(log))
              && (!thrown ==> featureStack == t.m.featureStack && closeLine == t.m.closeLine && log == t.m.log
                              && blocks == t.m.blocks && newLine == t.line)
    {
      thrown, blocks, newLine := false, blockStructure, line;
      var trimmed := Trim(line);
      if StartsWith(trimmed, "//&") {
        var replacement := GetReplacement(trimmed[3..]);
        if replacement.None? {
          thrown := true;
          return;
        }
        newLine := replacement.value;
        blocks := OnFloridaBlock(blocks, newLine);
      } else if StartsWith(trimmed, "#") {
        trimmed := Replace(trimmed, " ", "");
        if StartsWith(trimmed, "#if") {
          // #if, #ifdef, #ifndef open a block
          blocks := [CppBlock(currentLineNumber, 0, 0)] + blocks;
        } else if StartsWith(trimmed, "#el") {
          // #elif, #else close the current block and open the next
          blocks := PopBlock(blocks);
          blocks := [CppBlock(currentLineNumber, 0, 0)] + blocks;
        } else if StartsWith(trimmed, "#endif") {
          blocks := PopBlock(blocks);
        }
      }
    }

    /**
     * copySourceFile: the lines written to the target file, and whether the
     * loop reached the end of the file; when it did not, the lines are those
     * written before the exception, which closing the writer still flushes.
     */
    method CopySourceFile(name: string, lines: seq<string>) returns (completed: bool, out: seq<string>)
      modifies this
      ensures var o := TransformFile(old(Session()), name, lines);
              completed == o.Completed? && out == o.m.out
              && featureStack == o.m.featureStack && closeLine == o.m.closeLine && log == o.m.log
      ensures currentFile == None && currentLineNumber == -1
    {
      currentFile := Some(name);
      ghost var start := Machine(featureStack, closeLine, log, [], []);
      var blockStructure: seq<CppBlock> := [];
      out := [];
      var i := 0;
      while i < |lines|
        invariant i <= |lines|
        invariant currentFile == Some(name)
        invariant Run(start, name, lines[..i]) == Completed(Machine(featureStack, closeLine, log, blockStructure, out))
      {
        RunExtend(start, name, lines, i);
        var thrown;
        thrown, blockStructure, out := CopyLine(name, i + 1, lines[i], blockStructure, out);
        if thrown {
          RunAbortedStays(start, name, lines, i + 1);
          currentFile := None;
          currentLineNumber := -1;
          completed := false;
          return;
        }
        i := i + 1;
      }
      assert lines[..i] == lines;
      currentFile := None;
      currentLineNumber := -1;
      completed := true;
    }

    /**
     * One pass of the loop of copySourceFile, over line n of the current
     * file: the step of the loop, on the state the fields and the loop's
     * locals blockStructure and out hold.
     */
    method CopyLine(name: string, n: int, line: string, blockStructure: seq<CppBlock>, out: seq<string>)
      returns (thrown: bool, blocks: seq<CppBlock>, written: seq<string>)
      requires currentFile == Some(name)
      modifies this`featureStack, this`log, this`closeLine, this`currentLineNumber
      ensures var s := Step(Machine(old(featureStack), old(closeLine), old(log), blockStructure, out), name, n, line);
              thrown == s.Thrown?
              && Machine(featureStack, closeLine, log, blocks, written) == s.m
      ensures currentLineNumber == n
    {
      ghost var cur := Machine(featureStack, closeLine, log, blockStructure, out);
      currentLineNumber := n;
      var closeLineAfterThis := closeLine;
      closeLine := None;
      StepOfLine(cur, name, n, line);
      var newLine;
      thrown, blocks, newLine := TranslateLine(blockStructure, line);
      if thrown {
        blocks, written := blockStructure, out;
        return;
      }
      ghost var mid := Machine(featureStack, closeLine, log, blocks, out);
      written := out + [newLine];
      if closeLineAfterThis.Some? {
        var endLine := EndText(closeLineAfterThis.value);
        blocks := OnFloridaBlock(blocks, endLine);
        FloridaCountIgnoresOut(Written(mid, newLine), name, endLine);
        written := written + [endLine];
      }
    }

    /**
     * copy, over the files of the tree in the order the walk visits them:
     * source files are transformed, the others copied unchanged; an
     * exception ends the walk after the file it came from.
     */
    method Copy(files: seq<SourceFile>) returns (written: seq<SourceFile>, completed: bool)
      modifies this
      ensures var o := CopyAll(old(Session()), files);
              written == o.written && completed == !o.aborted
              && featureStack == o.session.featureStack && closeLine == o.session.closeLine && log == o.session.log
      ensures (exists k | 0 <= k < |files| :: IsSourceFileName(files[k].name))
              ==> currentFile == None && currentLineNumber == -1
      ensures (forall k | 0 <= k < |files| :: !IsSourceFileName(files[k].name))
              ==> currentFile == old(currentFile) && currentLineNumber == old(currentLineNumber)
    {
      written := [];
      var i := 0;
      while i < |files|
        invariant i <= |files|
        invariant CopyFrom(TransformFile, Session(), files, i, written) == CopyAll(old(Session()), files)
        invariant (exists k | 0 <= k < i :: IsSourceFileName(files[k].name))
                  ==> currentFile == None && currentLineNumber == -1
        invariant (forall k | 0 <= k < i :: !IsSourceFileName(files[k].name))
                  ==> currentFile == old(currentFile) && currentLineNumber == old(currentLineNumber)
      {
        var f := files[i];
        if IsSourceFileName(f.name) {
          var ok, out := CopySourceFile(f.name, f.lines);
          written := written + [SourceFile(f.name, out)];
          if !ok {
            completed := false;
            return;
          }
        } else {
          written := written + [f];
        }
        i := i + 1;
      }
      completed := true;
    }

    /** prepare: a fresh feature stack, then the walk over the tree. */
    method Prepare(files: seq<SourceFile>) returns (written: seq<SourceFile>, completed: bool)
      modifies this
      ensures var o := CopyAll(old(Session()).(featureStack := []), files);
              written == o.written && completed == !o.aborted
              && featureStack == o.session.featureStack && closeLine == o.session.closeLine && log == o.session.log
      ensures (exists k | 0 <= k < |files| :: IsSourceFileName(files[k].name))
              ==> currentFile == None && currentLineNumber == -1
      ensures (forall k | 0 <= k < |files| :: !IsSourceFileName(files[k].name))
              ==> currentFile == old(currentFile) && currentLineNumber == old(currentLineNumber)
    {
      featureStack := [];
      written, completed := Copy(files);
    }
  }
}
