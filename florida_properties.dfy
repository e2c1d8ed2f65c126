/**
 * What the FLOrIDA preparation promises, proved about the specification in
 * module Florida: the annotation grammar, the feature stack, the pending
 * close of Line[], the block counters, whole files and the tree walk.
 */
module FloridaProperties {
  import opened JavaString
  import opened Florida

  // ---------------------------------------------------------------------
  // The annotation grammar

  /** prefix F ] is matched, with F as the group, whenever F is a word. */
  lemma MatchBracketedComplete(prefix: string, f: string)
    requires IsWord(f)
    ensures MatchBracketed(prefix, prefix + f + "]") == Some(f)
  {
    var c := prefix + f + "]";
    assert c[..|prefix|] == prefix;
    assert c[|prefix|..|c| - 1] == f;
  }

  /** begin[F] is a begin annotation for every word F. */
  lemma ParseBegin(f: string)
    requires IsWord(f)
    ensures Parse("begin[" + f + "]") == Begin(f)
  {
    var c := "begin[" + f + "]";
    assert c[0] == 'b';
    MatchBracketedComplete("begin[", f);
  }

  /** end[F] is an end annotation for every word F. */
  lemma ParseEnd(f: string)
    requires IsWord(f)
    ensures Parse("end[" + f + "]") == End(f)
  {
    MatchBracketedComplete("end[", f);
  }

  /** Line[F] is a line annotation for every word F. */
  lemma ParseLine(f: string)
    requires IsWord(f)
    ensures Parse("Line[" + f + "]") == Line(f)
  {
    var c := "Line[" + f + "]";
    assert c[0] == 'L';
    MatchBracketedComplete("Line[", f);
  }

  /**
   * The three patterns are anchored at both ends: a condition is unknown
   * exactly when it is none of begin[F], end[F], Line[F] for a word F.
   */
  lemma ParseUnknownIff(c: string)
    ensures Parse(c).Unknown? <==>
      forall f :: IsWord(f) ==> c != "end[" + f + "]" && c != "begin[" + f + "]" && c != "Line[" + f + "]"
  {
    if Parse(c).Unknown? {
      forall f | IsWord(f)
        ensures c != "end[" + f + "]" && c != "begin[" + f + "]" && c != "Line[" + f + "]"
      {
        ParseEnd(f);
        ParseBegin(f);
        ParseLine(f);
      }
    }
  }

  /** A condition whose first character starts none of the keywords is unknown. */
  lemma UnknownByFirstChar(c: string)
    requires |c| > 0 && c[0] != 'e' && c[0] != 'b' && c[0] != 'L'
    ensures Parse(c) == Unknown
  {
    assert !StartsWith(c, "end[") && !StartsWith(c, "begin[") && !StartsWith(c, "Line[") by {
      assert c[..1] != "e" && c[..1] != "b" && c[..1] != "L";
    }
  }

  /** The keywords are matched case-sensitively, whatever follows the bracket. */
  lemma ParseIsCaseSensitive(f: string)
    ensures Parse("BEGIN[" + f + "]") == Unknown
    ensures Parse("Begin[" + f + "]") == Unknown
    ensures Parse("END[" + f + "]") == Unknown
    ensures Parse("line[" + f + "]") == Unknown
  {
    UnknownByFirstChar("BEGIN[" + f + "]");
    UnknownByFirstChar("Begin[" + f + "]");
    UnknownByFirstChar("END[" + f + "]");
    UnknownByFirstChar("line[" + f + "]");
  }

  // ---------------------------------------------------------------------
  // getReplacement

  /** begin[F] pushes F and is replaced by #if defined(F). */
  lemma BeginReplacement(m: Machine, file: string, n: int, f: string)
    requires IsWord(f)
    ensures ReplacementOf(m, file, n, "begin[" + f + "]")
         == Replaced(m.(featureStack := [f] + m.featureStack), "#if defined(" + f + ")")
  {
    ParseBegin(f);
  }

  /**
   * end[F] pops the feature stack and is replaced by #endif // F with the F
   * it names, whatever was popped; exactly one warning is logged when the
   * popped feature G differs from F.
   */
  lemma EndReplacement(m: Machine, file: string, n: int, f: string)
    requires IsWord(f) && m.featureStack != []
    ensures var g := m.featureStack[0];
      ReplacementOf(m, file, n, "end[" + f + "]")
      == Replaced(m.(featureStack := m.featureStack[1..],
                     log := m.log + (if f == g then [] else [FeatureMismatch(file, n, f, g)])),
                  "#endif // " + f)
  {
    ParseEnd(f);
  }

  /** end[F] with no open begin[] throws, as popping an empty deque does. */
  lemma EndOnEmptyStackThrows(m: Machine, file: string, n: int, f: string)
    requires IsWord(f) && m.featureStack == []
    ensures ReplacementOf(m, file, n, "end[" + f + "]") == NoSuchElement
  {
    ParseEnd(f);
  }

  /** Line[F] leaves the feature stack alone, records F as pending, and is replaced by #if defined(F). */
  lemma LineReplacement(m: Machine, file: string, n: int, f: string)
    requires IsWord(f)
    ensures ReplacementOf(m, file, n, "Line[" + f + "]")
         == Replaced(m.(closeLine := Some(f)), "#if defined(" + f + ")")
  {
    ParseLine(f);
  }

  /** Any other condition is replaced by the error marker and logs exactly one error. */
  lemma UnknownReplacement(m: Machine, file: string, n: int, c: string)
    requires forall f :: IsWord(f) ==> c != "end[" + f + "]" && c != "begin[" + f + "]" && c != "Line[" + f + "]"
    ensures ReplacementOf(m, file, n, c)
         == Replaced(m.(log := m.log + [Diagnostic(Error, ["Unknown FLOrIDA condition in " + file + " in line " + IntToString(n) + ":", c])]),
                     "// Error replacing FLOrIDA condition: //&" + c)
  {
    ParseUnknownIff(c);
  }

  // ---------------------------------------------------------------------
  // onFloridaBlock and popBlock

  /** An #if replacement counts one opening on the innermost block. */
  lemma CountsOpening(m: Machine, file: string, f: string)
    requires m.blocks != []
    ensures var b := m.blocks[0];
      FloridaCount(m, file, BeginText(f))
      == m.(blocks := [b.(numOpeningFlorida := b.numOpeningFlorida + 1)] + m.blocks[1..])
  {
    assert StartsWith(BeginText(f), "#if");
  }

  /**
   * An #endif replacement counts one closing on the innermost block, and
   * warns, with the block's own first line, exactly when the closings then
   * outnumber the openings.
   */
  lemma CountsClosing(m: Machine, file: string, f: string)
    requires m.blocks != []
    ensures var b := m.blocks[0];
      var b' := b.(numClosingFlorida := b.numClosingFlorida + 1);
      FloridaCount(m, file, EndText(f))
      == m.(blocks := [b'] + m.blocks[1..],
            log := m.log + (if b.numClosingFlorida + 1 > b.numOpeningFlorida
                            then [Diagnostic(Warning, ["CppBlock in " + file + " in line " + IntToString(b.lineStart)
                                                       + " has a closing FLOrIDA statement without a prior opening one"])]
                            else []))
  {
    var e := EndText(f);
    assert e[..3] != "#if" by { assert e[1] == 'e'; }
    assert StartsWith(e, "#endif");
  }

  /** An annotation outside every native block is counted nowhere and never warns. */
  lemma CountsNothingOutsideBlocks(m: Machine, file: string, replacement: string)
    requires m.blocks == []
    ensures FloridaCount(m, file, replacement) == m
  {
  }

  /** The error marker is handed to onFloridaBlock, which ignores it. */
  lemma ErrorMarkerNotCounted(m: Machine, file: string, c: string)
    ensures FloridaCount(m, file, ErrorText(c)) == m
  {
    var e := ErrorText(c);
    assert e[0] == '/';
  }

  /**
   * Closing a block warns exactly when its openings and closings differ;
   * closing with no open block does nothing.
   */
  lemma PopWarnsIffUnbalanced(m: Machine, file: string)
    requires m.blocks != []
    ensures var b := m.blocks[0];
      PopResult(m, file).log
      == m.log + (if b.numOpeningFlorida == b.numClosingFlorida then []
                  else [Diagnostic(Warning, ["CppBlock in " + file + " in line " + IntToString(b.lineStart) + " has "
                                             + NatToString(b.numOpeningFlorida) + " opening and "
                                             + NatToString(b.numClosingFlorida) + " closing FLOrIDA statements"])])
  {
  }

  // ---------------------------------------------------------------------
  // One line of copySourceFile

  /** The synthetic close written after a line while a Line[] was pending. */
  function Trailer(pending: Option<string>): (t: seq<string>)
    ensures |t| <= 1
  {
    match pending
    case None => []
    case Some(f) => ["#endif // " + f]
  }

  /**
   * What the synthetic close of a pending Line[] does to the block
   * structure and the log, from blocks and log to those of after: with
   * nothing pending, or no block open, nothing; otherwise one more closing
   * on the top block, and a warning when the closings now outnumber the
   * openings.
   */
  predicate CloseCounted(blocks: seq<CppBlock>, log: seq<Diagnostic>, after: Machine, file: string,
                         pending: Option<string>) {
    if pending.None? || blocks == [] then after.blocks == blocks && after.log == log
    else
      var b := blocks[0];
      var b' := b.(numClosingFlorida := b.numClosingFlorida + 1);
      after.blocks == [b'] + blocks[1..]
      && after.log == log + (if b'.numClosingFlorida > b'.numOpeningFlorida
                             then [Diagnostic(Warning, ["CppBlock in " + file + " in line " + IntToString(b.lineStart)
                                                        + " has a closing FLOrIDA statement without a prior opening one"])]
                             else [])
  }

  /** The pending close is written after the line and counted against the innermost block. */
  lemma PendingCloseCounted(m: Machine, file: string, pending: Option<string>)
    ensures var r := ClosePending(m, file, pending);
      r.out == m.out + Trailer(pending) && r.featureStack == m.featureStack && r.closeLine == m.closeLine
      && CloseCounted(m.blocks, m.log, r, file, pending)
  {
    match pending
    case None =>
    case Some(f) =>
      if m.blocks != [] {
        CountsClosing(m, file, f);
      }
  }

  /** The line that replaces an annotation, read off the grammar. */
  function AnnotationText(c: string): string {
    match Parse(c)
    case Begin(f) => "#if defined(" + f + ")"
    case Line(f) => "#if defined(" + f + ")"
    case End(f) => "#endif // " + f
    case Unknown => "// Error replacing FLOrIDA condition: //&" + c
  }

  /** Counting an annotation keeps the block structure's depth and first lines. */
  lemma FloridaCountKeepsShape(m: Machine, file: string, replacement: string)
    ensures var r := FloridaCount(m, file, replacement);
      |r.blocks| == |m.blocks| && forall k :: 0 <= k < |m.blocks| ==> r.blocks[k].lineStart == m.blocks[k].lineStart
  {
    var r := FloridaCount(m, file, replacement);
    forall k | 0 <= k < |m.blocks|
      ensures r.blocks[k].lineStart == m.blocks[k].lineStart
    {
      if k > 0 {
        assert r.blocks[k] == r.blocks[1..][k - 1];
      }
    }
  }

  /**
   * Every line that is not an annotation, native directives included, is
   * written exactly as it was read, followed by the pending close if any;
   * it never touches the feature stack, and no close is pending after it.
   * On a line that is not a directive either, the pending close is the only
   * thing counted.
   */
  lemma PlainLineWrittenAsRead(m: Machine, file: string, n: int, line: string)
    requires !StartsWith(Trim(line), "//&")
    ensures Step(m, file, n, line).Next?
    ensures var m' := Step(m, file, n, line).m;
      m'.out == m.out + [line] + Trailer(m.closeLine)
      && m'.featureStack == m.featureStack && m'.closeLine == None
    ensures !StartsWith(Trim(line), "#") ==> CloseCounted(m.blocks, m.log, Step(m, file, n, line).m, file, m.closeLine)
  {
    if !StartsWith(Trim(line), "#") {
      PendingCloseCounted(Written(m.(closeLine := None), line), file, m.closeLine);
    }
  }

  /**
   * An annotation line is replaced by the text its grammar gives, followed
   * by the pending close if any; only end[] on an empty feature stack
   * throws, and then nothing is written. The block structure keeps its
   * depth and the first lines of its blocks.
   */
  lemma AnnotationLineReplaced(m: Machine, file: string, n: int, line: string)
    requires StartsWith(Trim(line), "//&")
    ensures var c := Trim(line)[3..];
      Step(m, file, n, line).Thrown? <==> Parse(c).End? && m.featureStack == []
    ensures Step(m, file, n, line).Thrown? ==> Step(m, file, n, line).m == m.(closeLine := None)
    ensures var c := Trim(line)[3..];
      var m' := Step(m, file, n, line).m;
      Step(m, file, n, line).Next? ==>
        m'.out == m.out + [AnnotationText(c)] + Trailer(m.closeLine)
        && m'.closeLine == (if Parse(c).Line? then Some(Parse(c).feature) else None)
        && m'.featureStack == (match Parse(c)
                               case Begin(f) => [f] + m.featureStack
                               case End(_) => m.featureStack[1..]
                               case _ => m.featureStack)
        && |m'.blocks| == |m.blocks|
        && forall k :: 0 <= k < |m.blocks| ==> m'.blocks[k].lineStart == m.blocks[k].lineStart
  {
    var c := Trim(line)[3..];
    var m1 := m.(closeLine := None);
    StepOfAnnotation(m, file, n, line);
    match ReplacementOf(m1, file, n, c)
    case NoSuchElement =>
    case Replaced(m2, text) =>
      var m3 := FloridaCount(m2, file, text);
      FloridaCountKeepsShape(m2, file, text);
      match m.closeLine
      case None =>
      case Some(f) =>
        FloridaCountKeepsShape(Written(m3, text), file, EndText(f));
  }

  /** Step on an annotation line: getReplacement, then the count and the write of its text. */
  lemma StepOfAnnotation(m: Machine, file: string, n: int, line: string)
    requires StartsWith(Trim(line), "//&")
    ensures Step(m, file, n, line)
         == match ReplacementOf(m.(closeLine := None), file, n, Trim(line)[3..])
            case NoSuchElement => Thrown(m.(closeLine := None))
            case Replaced(m2, text) => Next(ClosePending(Written(FloridaCount(m2, file, text), text), file, m.closeLine))
  {
  }

  /** A line is a native directive, once trimmed, and d is its text without spaces. */
  predicate NativeDirectiveLine(line: string, d: string) {
    StartsWith(Trim(line), "#") && d == Replace(Trim(line), " ", "")
  }

  /** A directive is not an annotation. */
  lemma DirectiveIsNotAnnotation(line: string)
    requires StartsWith(Trim(line), "#")
    ensures !StartsWith(Trim(line), "//&")
  {
    assert Trim(line)[0] == '#';
  }

  /**
   * A native directive line: written as read, then the pending close, if
   * any, written and counted against the block structure and log the
   * directive left.
   */
  predicate DirectiveStep(m: Machine, file: string, n: int, line: string, blocks: seq<CppBlock>, log: seq<Diagnostic>) {
    var s := Step(m, file, n, line);
    s.Next? && s.m.out == m.out + [line] + Trailer(m.closeLine)
    && s.m.featureStack == m.featureStack && s.m.closeLine == None
    && CloseCounted(blocks, log, s.m, file, m.closeLine)
  }

  /** A native directive is written as read, and the pending close counted after the directive's bookkeeping. */
  lemma DirectiveThenClose(m: Machine, file: string, n: int, line: string, d: string)
    requires NativeDirectiveLine(line, d)
    ensures var mid := NativeDirective(m.(closeLine := None), file, n, d);
            DirectiveStep(m, file, n, line, mid.blocks, mid.log)
  {
    DirectiveIsNotAnnotation(line);
    var mid := NativeDirective(m.(closeLine := None), file, n, d);
    PendingCloseCounted(Written(mid, line), file, m.closeLine);
  }

  /**
   * A native #if, #ifdef or #ifndef opens a block that starts on this line;
   * a close pending from a Line[] on the line before is counted against
   * this new block.
   */
  lemma NativeIfOpensBlock(m: Machine, file: string, n: int, line: string, d: string)
    requires NativeDirectiveLine(line, d) && StartsWith(d, "#if")
    ensures DirectiveStep(m, file, n, line, [CppBlock(n, 0, 0)] + m.blocks, m.log)
  {
    DirectiveThenClose(m, file, n, line, d);
  }

  /**
   * A native #elif or #else closes the current block, if any, and opens one
   * on this line, against which a pending close is counted.
   */
  lemma NativeElseReplacesBlock(m: Machine, file: string, n: int, line: string, d: string)
    requires NativeDirectiveLine(line, d) && StartsWith(d, "#el")
    ensures DirectiveStep(m, file, n, line,
                          [CppBlock(n, 0, 0)] + (if m.blocks == [] then [] else m.blocks[1..]), PopResult(m, file).log)
  {
    assert !StartsWith(d, "#if") by { assert d[..3][1] == 'e'; }
    DirectiveThenClose(m, file, n, line, d);
    var m1 := m.(closeLine := None);
    var p := PopResult(m1, file);
    assert p.log == PopResult(m, file).log && p.blocks == (if m.blocks == [] then [] else m.blocks[1..]);
  }

  /** A native #endif closes the current block, if any; a pending close is counted against the one around it. */
  lemma NativeEndifClosesBlock(m: Machine, file: string, n: int, line: string, d: string)
    requires NativeDirectiveLine(line, d) && StartsWith(d, "#endif")
    ensures DirectiveStep(m, file, n, line, if m.blocks == [] then [] else m.blocks[1..], PopResult(m, file).log)
  {
    assert !StartsWith(d, "#if") && !StartsWith(d, "#el") by { assert d[..3][2] == 'n'; }
    DirectiveThenClose(m, file, n, line, d);
    var m1 := m.(closeLine := None);
    var p := PopResult(m1, file);
    assert p.log == PopResult(m, file).log && p.blocks == (if m.blocks == [] then [] else m.blocks[1..]);
  }

  /** A stray #endif, with no block open, is written unchanged (with the pending close, if any) and logs nothing. */
  lemma StrayEndifIsSilent(m: Machine, file: string, n: int, line: string, d: string)
    requires m.blocks == [] && NativeDirectiveLine(line, d) && StartsWith(d, "#endif")
    ensures Step(m, file, n, line) == Next(m.(closeLine := None, out := m.out + [line] + Trailer(m.closeLine)))
  {
    NativeEndifClosesBlock(m, file, n, line, d);
  }

  /** The annotation //&Line[F] is the marker followed by the condition Line[F]. */
  lemma LineAnnotationSplits(f: string)
    ensures var s := "//&Line[" + f + "]";
      StartsWith(s, "//&") && s[3..] == "Line[" + f + "]"
  {
  }

  /**
   * Line[F] is replaced by #if defined(F); the next line is written as it
   * was read, and immediately after it the synthetic #endif // F, which
   * leaves nothing pending.
   */
  lemma LineClosedAfterNextLine(m: Machine, file: string, n: int, f: string, next: string)
    requires IsWord(f) && !StartsWith(Trim(next), "//&")
    ensures var s1 := Step(m, file, n, "//&Line[" + f + "]");
      s1.Next? && s1.m.out == m.out + ["#if defined(" + f + ")"] + Trailer(m.closeLine)
      && s1.m.closeLine == Some(f)
      && var s2 := Step(s1.m, file, n + 1, next);
         s2.Next? && s2.m.out == s1.m.out + [next, "#endif // " + f] && s2.m.closeLine == None
         && (!StartsWith(Trim(next), "#") ==> CloseCounted(s1.m.blocks, s1.m.log, s2.m, file, Some(f)))
  {
    LineAnnotationStep(m, file, n, f);
    var s1 := Step(m, file, n, "//&Line[" + f + "]");
    PlainLineWrittenAsRead(s1.m, file, n + 1, next);
  }

  /** The line //&Line[F] itself: #if defined(F) is written, and F is left pending. */
  lemma LineAnnotationStep(m: Machine, file: string, n: int, f: string)
    requires IsWord(f)
    ensures var s1 := Step(m, file, n, "//&Line[" + f + "]");
      s1.Next? && s1.m.out == m.out + ["#if defined(" + f + ")"] + Trailer(m.closeLine)
      && s1.m.closeLine == Some(f) && s1.m.featureStack == m.featureStack
  {
    var line := "//&Line[" + f + "]";
    assert line[0] == '/' && line[|line| - 1] == ']';
    TrimUnpadded(line);
    assert Trim(line)[..3] == "//&";
    assert Trim(line)[3..] == "Line[" + f + "]";
    ParseLine(f);
    AnnotationLineReplaced(m, file, n, line);
  }

  /** Every native block has as many FLOrIDA closings as openings. */
  predicate Balanced(blocks: seq<CppBlock>) {
    forall b | b in blocks :: b.numOpeningFlorida == b.numClosingFlorida
  }

  /** The innermost block, if any, with one more opening. */
  function Opened(blocks: seq<CppBlock>): seq<CppBlock> {
    if blocks == [] then [] else [blocks[0].(numOpeningFlorida := blocks[0].numOpeningFlorida + 1)] + blocks[1..]
  }

  /** The innermost block, if any, with one more closing. */
  function Closed(blocks: seq<CppBlock>): seq<CppBlock> {
    if blocks == [] then [] else [blocks[0].(numClosingFlorida := blocks[0].numClosingFlorida + 1)] + blocks[1..]
  }

  /** The line //&begin[F], with nothing pending: F pushed, #if defined(F) written and counted, nothing logged. */
  lemma BeginLineStep(m: Machine, file: string, n: int, f: string)
    requires IsWord(f) && m.closeLine == None
    ensures Step(m, file, n, "//&begin[" + f + "]")
         == Next(m.(featureStack := [f] + m.featureStack, blocks := Opened(m.blocks),
                    out := m.out + ["#if defined(" + f + ")"]))
  {
    var line := "//&begin[" + f + "]";
    assert line[0] == '/' && line[|line| - 1] == ']';
    TrimUnpadded(line);
    assert Trim(line)[..3] == "//&";
    assert Trim(line)[3..] == "begin[" + f + "]";
    StepOfAnnotation(m, file, n, line);
    BeginReplacement(m, file, n, f);
    var m2 := m.(featureStack := [f] + m.featureStack);
    if m.blocks != [] {
      CountsOpening(m2, file, f);
    }
  }

  /**
   * The line //&end[F], with nothing pending and F the innermost open
   * feature: F popped, #endif // F written and counted, and nothing logged
   * while the innermost block has no more closings than openings.
   */
  lemma EndLineStep(m: Machine, file: string, n: int, f: string)
    requires IsWord(f) && m.closeLine == None && m.featureStack != [] && m.featureStack[0] == f
    requires m.blocks != [] ==> m.blocks[0].numClosingFlorida < m.blocks[0].numOpeningFlorida
    ensures Step(m, file, n, "//&end[" + f + "]")
         == Next(m.(featureStack := m.featureStack[1..], blocks := Closed(m.blocks),
                    out := m.out + ["#endif // " + f]))
  {
    var line := "//&end[" + f + "]";
    assert line[0] == '/' && line[|line| - 1] == ']';
    TrimUnpadded(line);
    assert Trim(line)[..3] == "//&";
    assert Trim(line)[3..] == "end[" + f + "]";
    StepOfAnnotation(m, file, n, line);
    EndReplacement(m, file, n, f);
    var m2 := m.(featureStack := m.featureStack[1..]);
    assert m.log + [] == m.log;
    assert ReplacementOf(m, file, n, "end[" + f + "]") == Replaced(m2, EndText(f));
    if m.blocks != [] {
      CountsClosing(m2, file, f);
    }
    var m3 := FloridaCount(m2, file, EndText(f));
    assert m3 == m2.(blocks := Closed(m.blocks));
    assert Step(m, file, n, line) == Next(Written(m3, EndText(f)));
  }

  /**
   * A line that is not an annotation, with nothing pending, keeps the log
   * and keeps every block balanced: a native #if opens a balanced block,
   * and #el* and #endif close only balanced ones, which popBlock does not
   * warn about.
   */
  lemma PlainLineKeepsBalance(m: Machine, file: string, n: int, line: string)
    requires !StartsWith(Trim(line), "//&") && m.closeLine == None && Balanced(m.blocks)
    ensures var m' := Step(m, file, n, line).m;
      m'.log == m.log && Balanced(m'.blocks)
  {
    if StartsWith(Trim(line), "#") {
      var d := Replace(Trim(line), " ", "");
      if StartsWith(d, "#if") {
        NativeIfOpensBlock(m, file, n, line, d);
      } else if StartsWith(d, "#el") {
        NativeElseReplacesBlock(m, file, n, line, d);
        if m.blocks != [] {
          assert m.blocks[0] in m.blocks;
          PopWarnsIffUnbalanced(m, file);
        }
      } else if StartsWith(d, "#endif") {
        NativeEndifClosesBlock(m, file, n, line, d);
        if m.blocks != [] {
          assert m.blocks[0] in m.blocks;
          PopWarnsIffUnbalanced(m, file);
        }
      } else {
        DirectiveThenClose(m, file, n, line, d);
      }
    } else {
      PlainLineWrittenAsRead(m, file, n, line);
    }
  }

  /**
   * A Line[F] directly followed by a native #if: the synthetic close is
   * counted against the block the #if has just opened, which then has a
   * closing without an opening, and that is warned about.
   */
  lemma LineThenNativeIf(m: Machine, file: string, n: int, f: string, next: string, d: string)
    requires IsWord(f) && NativeDirectiveLine(next, d) && StartsWith(d, "#if")
    ensures var s1 := Step(m, file, n, "//&Line[" + f + "]");
      s1.Next?
      && var s2 := Step(s1.m, file, n + 1, next);
         s2.Next? && s2.m.out == s1.m.out + [next, "#endif // " + f]
         && s2.m.blocks == [CppBlock(n + 1, 0, 1)] + s1.m.blocks
         && s2.m.log == s1.m.log + [Diagnostic(Warning, ["CppBlock in " + file + " in line " + IntToString(n + 1)
                                                         + " has a closing FLOrIDA statement without a prior opening one"])]
  {
    DirectiveIsNotAnnotation(next);
    LineClosedAfterNextLine(m, file, n, f, next);
    var s1 := Step(m, file, n, "//&Line[" + f + "]");
    NativeIfOpensBlock(s1.m, file, n + 1, next, d);
  }

  // ---------------------------------------------------------------------
  // Whole files

  /** A line only ever adds to what is written. */
  lemma StepExtendsOut(m: Machine, file: string, n: int, line: string)
    ensures var m' := Step(m, file, n, line).m;
      |m.out| <= |m'.out| && m'.out[..|m.out|] == m.out
  {
    var m1 := m.(closeLine := None);
    match Translate(m1, file, n, line)
    case Threw =>
    case Translated(m2, text) =>
      var w := Written(m2, text);
      assert w.out[..|m.out|] == m.out;
      match m.closeLine
      case None =>
      case Some(f) =>
        var w' := ClosePending(w, file, m.closeLine);
        assert w'.out == w.out + [EndText(f)];
        assert w'.out[..|m.out|] == m.out;
  }

  /** What was written after the first k lines is a prefix of what the whole file writes. */
  lemma {:induction false} RunPrefixWritten(m: Machine, file: string, lines: seq<string>, k: nat)
    requires k <= |lines| && Run(m, file, lines[..k]).Completed?
    ensures var before := Run(m, file, lines[..k]).m.out;
      var after := Run(m, file, lines).m.out;
      |before| <= |after| && after[..|before|] == before
    decreases |lines| - k
  {
    if k == |lines| {
      assert lines[..k] == lines;
    } else {
      RunExtend(m, file, lines, k);
      var mk := Run(m, file, lines[..k]).m;
      StepExtendsOut(mk, file, k + 1, lines[k]);
      var s := Step(mk, file, k + 1, lines[k]);
      if s.Next? {
        RunPrefixWritten(m, file, lines, k + 1);
      } else {
        RunAbortedStays(m, file, lines, k + 1);
      }
    }
  }

  /**
   * A file without annotations, with nothing pending, is copied line for
   * line and leaves the feature stack and the pending close as they were.
   */
  lemma {:induction false} FileWithoutAnnotationsCopied(m: Machine, file: string, lines: seq<string>)
    requires forall i :: 0 <= i < |lines| ==> !StartsWith(Trim(lines[i]), "//&")
    requires m.closeLine == None
    ensures Run(m, file, lines).Completed?
    ensures var r := Run(m, file, lines).m;
      r.out == m.out + lines && r.featureStack == m.featureStack && r.closeLine == None
    ensures Balanced(m.blocks) ==> Run(m, file, lines).m.log == m.log && Balanced(Run(m, file, lines).m.blocks)
    decreases |lines|
  {
    if lines != [] {
      var k := |lines| - 1;
      FileWithoutAnnotationsCopied(m, file, lines[..k]);
      var before := Run(m, file, lines[..k]).m;
      PlainLineWrittenAsRead(before, file, k + 1, lines[k]);
      if Balanced(m.blocks) {
        PlainLineKeepsBalance(before, file, k + 1, lines[k]);
      }
      RunExtend(m, file, lines, k);
      assert lines[..k + 1] == lines;
    }
  }

  /** A line that is neither an annotation nor a native directive. */
  predicate IsText(line: string) {
    !StartsWith(Trim(line), "//&") && !StartsWith(Trim(line), "#")
  }

  /** A slice is the slice one shorter followed by its last element. */
  lemma SliceSnoc(s: seq<string>, j: nat, k: nat)
    requires j < k <= |s|
    ensures s[j..k] == s[j..k - 1] + [s[k - 1]]
  {
  }

  /** A line of plain text, with nothing pending, is only written. */
  lemma TextLineStep(m: Machine, file: string, n: int, line: string)
    requires IsText(line) && m.closeLine == None
    ensures Step(m, file, n, line) == Next(m.(out := m.out + [line]))
  {
    PlainLineWrittenAsRead(m, file, n, line);
  }

  /** One more line of plain text, read with nothing pending, is only written. */
  lemma TextLineExtends(m: Machine, file: string, lines: seq<string>, j: nat, k: nat, mj: Machine)
    requires j < k <= |lines| && mj.closeLine == None && IsText(lines[k - 1])
    requires Run(m, file, lines[..k - 1]) == Completed(mj.(out := mj.out + lines[j..k - 1]))
    ensures Run(m, file, lines[..k]) == Completed(mj.(out := mj.out + lines[j..k]))
  {
    var before := mj.(out := mj.out + lines[j..k - 1]);
    RunExtend(m, file, lines, k - 1);
    TextLineStep(before, file, k, lines[k - 1]);
    SliceSnoc(lines, j, k);
    assert before.out + [lines[k - 1]] == mj.out + lines[j..k];
  }

  /** From line j on, lines of plain text with nothing pending are only written. */
  lemma {:induction false} TextLinesWritten(m: Machine, file: string, lines: seq<string>, j: nat, k: nat, mj: Machine)
    requires j <= k <= |lines| && Run(m, file, lines[..j]) == Completed(mj) && mj.closeLine == None
    requires forall i :: j <= i < k ==> IsText(lines[i])
    ensures Run(m, file, lines[..k]) == Completed(mj.(out := mj.out + lines[j..k]))
    decreases k
  {
    if k == j {
      assert mj.out + lines[j..k] == mj.out;
    } else {
      TextLinesWritten(m, file, lines, j, k - 1, mj);
      TextLineExtends(m, file, lines, j, k, mj);
    }
  }

  /**
   * A correctly nested begin[F] ... end[F] around lines of plain text logs
   * nothing: the feature popped is the one pushed, and the opening and the
   * closing are counted on the same block. The lines come out with the two
   * annotations replaced, and the feature stack and blocks are balanced
   * again.
   */
  lemma BeginEndPairLogsNothing(m: Machine, file: string, f: string, body: seq<string>)
    requires IsWord(f) && m.closeLine == None && Balanced(m.blocks)
    requires forall i :: 0 <= i < |body| ==> IsText(body[i])
    ensures var r := Run(m, file, ["//&begin[" + f + "]"] + body + ["//&end[" + f + "]"]);
      r.Completed? && r.m.log == m.log && Balanced(r.m.blocks) && |r.m.blocks| == |m.blocks|
      && r.m.featureStack == m.featureStack && r.m.closeLine == None
      && r.m.out == m.out + ["#if defined(" + f + ")"] + body + ["#endif // " + f]
  {
    var lines := ["//&begin[" + f + "]"] + body + ["//&end[" + f + "]"];
    var last := |body| + 1;
    BeginThenText(m, file, f, body, lines);
    var m2 := m.(featureStack := [f] + m.featureStack, blocks := Opened(m.blocks),
                 out := m.out + ["#if defined(" + f + ")"] + body);
    OpenedThenClosed(m.blocks);
    RunExtend(m, file, lines, last);
    EndLineStep(m2, file, last + 1, f);
    assert lines[..last + 1] == lines;
  }

  /** Up to the end[F] line: F pushed, the opening counted, and the text written. */
  lemma BeginThenText(m: Machine, file: string, f: string, body: seq<string>, lines: seq<string>)
    requires IsWord(f) && m.closeLine == None
    requires forall i :: 0 <= i < |body| ==> IsText(body[i])
    requires lines == ["//&begin[" + f + "]"] + body + ["//&end[" + f + "]"]
    ensures Run(m, file, lines[..|body| + 1])
         == Completed(m.(featureStack := [f] + m.featureStack, blocks := Opened(m.blocks),
                         out := m.out + ["#if defined(" + f + ")"] + body))
  {
    var last := |body| + 1;
    RunExtend(m, file, lines, 0);
    assert lines[..0] == [];
    BeginLineStep(m, file, 1, f);
    var m1 := m.(featureStack := [f] + m.featureStack, blocks := Opened(m.blocks), out := m.out + ["#if defined(" + f + ")"]);
    assert lines[1..last] == body;
    forall i | 1 <= i < last
      ensures IsText(lines[i])
    {
      assert lines[i] == lines[1..last][i - 1];
    }
    TextLinesWritten(m, file, lines, 1, last, m1);
  }

  /**
   * One opening and then one closing on the innermost of balanced blocks:
   * no warning on the way, as the closing never outnumbers the openings,
   * and balanced again.
   */
  lemma OpenedThenClosed(blocks: seq<CppBlock>)
    requires Balanced(blocks)
    ensures var o := Opened(blocks);
      o != [] ==> o[0].numClosingFlorida < o[0].numOpeningFlorida
    ensures Balanced(Closed(Opened(blocks))) && |Closed(Opened(blocks))| == |blocks|
  {
    if blocks != [] {
      assert blocks[0] in blocks;
      var r := Closed(Opened(blocks));
      forall b | b in r
        ensures b.numOpeningFlorida == b.numClosingFlorida
      {
        if b != r[0] {
          assert b in blocks[1..];
        }
      }
    }
  }

  /**
   * The simplest correctly nested source file, //&begin[F], lines of plain
   * text, //&end[F], is transformed without a single diagnostic, with the
   * feature stack it started with.
   */
  lemma NestedFileLogsNothing(session: Machine, file: string, f: string, body: seq<string>)
    requires IsWord(f) && session.closeLine == None
    requires forall i :: 0 <= i < |body| ==> IsText(body[i])
    ensures var r := TransformFile(session, file, ["//&begin[" + f + "]"] + body + ["//&end[" + f + "]"]);
      r.Completed? && r.m.log == session.log && r.m.featureStack == session.featureStack
      && r.m.out == ["#if defined(" + f + ")"] + body + ["#endif // " + f]
  {
    BeginEndPairLogsNothing(session.(blocks := [], out := []), file, f, body);
  }

  /** A Line[F] on the last line of a file is still pending when the file ends. */
  lemma LineOnLastLineStaysPending(m: Machine, file: string, lines: seq<string>, f: string)
    requires |lines| > 0 && IsWord(f) && Trim(lines[|lines| - 1]) == "//&Line[" + f + "]"
    requires Run(m, file, lines).Completed?
    ensures Run(m, file, lines).m.closeLine == Some(f)
  {
    var line := lines[|lines| - 1];
    LineAnnotationSplits(f);
    ParseLine(f);
    RunCompletedLast(m, file, lines);
    var before := Run(m, file, lines[..|lines| - 1]).m;
    AnnotationLineReplaced(before, file, |lines|, line);
  }

  // ---------------------------------------------------------------------
  // The tree walk

  /** The walk so far: file names kept, and every non-source file copied as it was. */
  predicate WalkedSoFar(files: seq<SourceFile>, written: seq<SourceFile>) {
    |written| <= |files|
    && (forall k :: 0 <= k < |written| ==> written[k].name == files[k].name)
    && (forall k :: 0 <= k < |written| && !IsSourceFileName(files[k].name) ==> written[k] == files[k])
  }

  /** What the walk promises of its outcome, once the first i files are written. */
  predicate WalkOutcome(files: seq<SourceFile>, i: nat, o: CopyOutcome) {
    WalkedSoFar(files, o.written) && i <= |o.written|
    && (!o.aborted ==> |o.written| == |files|)
    && (o.aborted ==> |o.written| > 0 && IsSourceFileName(o.written[|o.written| - 1].name))
  }

  /** Writing the next file under its own name, and unchanged unless it is a source file, keeps the walk. */
  lemma WalkedOneMore(files: seq<SourceFile>, written: seq<SourceFile>, next: SourceFile)
    requires WalkedSoFar(files, written) && |written| < |files|
    requires next.name == files[|written|].name
    requires !IsSourceFileName(next.name) ==> next == files[|written|]
    ensures WalkedSoFar(files, written + [next])
  {
  }

  lemma WalkOutcomeEarlier(files: seq<SourceFile>, i: nat, o: CopyOutcome)
    requires WalkOutcome(files, i + 1, o)
    ensures WalkOutcome(files, i, o)
  {
  }

  lemma {:induction false} CopyFromShape(transform: FileTransform, session: Machine, files: seq<SourceFile>, i: nat,
                                         written: seq<SourceFile>)
    requires i <= |files| && |written| == i && WalkedSoFar(files, written)
    ensures WalkOutcome(files, i, CopyFrom(transform, session, files, i, written))
    decreases |files| - i
  {
    if i < |files| {
      var f := files[i];
      if IsSourceFileName(f.name) {
        var t := transform(session, f.name, f.lines);
        var w := written + [SourceFile(f.name, t.m.out)];
        WalkedOneMore(files, written, SourceFile(f.name, t.m.out));
        var next := t.m.(blocks := [], out := []);
        if t.Aborted? {
          assert CopyFrom(transform, session, files, i, written) == CopyOutcome(w, next, true);
          assert w[|w| - 1].name == f.name;
        } else {
          assert CopyFrom(transform, session, files, i, written) == CopyFrom(transform, next, files, i + 1, w);
          CopyFromShape(transform, next, files, i + 1, w);
          WalkOutcomeEarlier(files, i, CopyFrom(transform, next, files, i + 1, w));
        }
      } else {
        var w := written + [f];
        WalkedOneMore(files, written, f);
        assert CopyFrom(transform, session, files, i, written) == CopyFrom(transform, session, files, i + 1, w);
        CopyFromShape(transform, session, files, i + 1, w);
        WalkOutcomeEarlier(files, i, CopyFrom(transform, session, files, i + 1, w));
      }
    }
  }

  /**
   * copy writes the files in the order it visits them, under their own
   * names; every file whose name does not end in .c, .cpp or .h is copied
   * unchanged; only an exception in a source file stops the walk early, and
   * then that file is the last one written.
   */
  lemma CopyShape(session: Machine, files: seq<SourceFile>)
    ensures var o := CopyAll(session, files);
      |o.written| <= |files|
      && (forall k :: 0 <= k < |o.written| ==> o.written[k].name == files[k].name)
      && (forall k :: 0 <= k < |o.written| && !IsSourceFileName(files[k].name) ==> o.written[k] == files[k])
      && (!o.aborted ==> |o.written| == |files|)
      && (o.aborted ==> |o.written| > 0 && IsSourceFileName(o.written[|o.written| - 1].name))
  {
    CopyFromShape(TransformFile, session, files, 0, []);
  }

  lemma {:induction false} CopyFromWithoutSources(transform: FileTransform, session: Machine, files: seq<SourceFile>, i: nat)
    requires i <= |files| && forall k :: 0 <= k < |files| ==> !IsSourceFileName(files[k].name)
    ensures CopyFrom(transform, session, files, i, files[..i]) == CopyOutcome(files, session, false)
    decreases |files| - i
  {
    if i == |files| {
      assert files[..i] == files;
    } else {
      assert files[..i] + [files[i]] == files[..i + 1];
      CopyFromWithoutSources(transform, session, files, i + 1);
    }
  }

  /** A tree without .c, .cpp or .h files is copied exactly, and the state is untouched. */
  lemma CopyWithoutSourcesIsIdentity(session: Machine, files: seq<SourceFile>)
    requires forall k :: 0 <= k < |files| ==> !IsSourceFileName(files[k].name)
    ensures CopyAll(session, files) == CopyOutcome(files, session, false)
  {
    CopyFromWithoutSources(TransformFile, session, files, 0);
  }

  /** Two source files in a row: the second is transformed starting from the state the first left. */
  lemma {:induction false} CopyTwoSourceFiles(transform: FileTransform, session: Machine, a: SourceFile, b: SourceFile)
    requires IsSourceFileName(a.name) && IsSourceFileName(b.name)
    requires transform(session, a.name, a.lines).Completed?
    ensures var ma := transform(session, a.name, a.lines).m;
      var o := CopyFrom(transform, session, [a, b], 0, []);
      |o.written| == 2
      && o.written[1] == SourceFile(b.name, transform(ma.(blocks := [], out := []), b.name, b.lines).m.out)
  {
    var files := [a, b];
    assert files[0] == a && files[1] == b;
    var ta := transform(session, a.name, a.lines);
    var sa := ta.m.(blocks := [], out := []);
    var wa := [SourceFile(a.name, ta.m.out)];
    assert [] + wa == wa;
    assert CopyFrom(transform, session, files, 0, []) == CopyFrom(transform, sa, files, 1, wa);
    var tb := transform(sa, b.name, b.lines);
    var wb := wa + [SourceFile(b.name, tb.m.out)];
    if tb.Aborted? {
      assert CopyFrom(transform, sa, files, 1, wa) == CopyOutcome(wb, tb.m.(blocks := [], out := []), true);
    } else {
      assert CopyFrom(transform, sa, files, 1, wa) == CopyFrom(transform, tb.m.(blocks := [], out := []), files, 2, wb);
    }
  }

  /** With a close pending, a file whose first line is not an annotation starts with that line and the close. */
  lemma PendingCloseAfterFirstLine(start: Machine, file: string, lines: seq<string>, f: string)
    requires start.out == [] && start.closeLine == Some(f)
    requires |lines| > 0 && !StartsWith(Trim(lines[0]), "//&")
    ensures var out := Run(start, file, lines).m.out;
      |out| >= 2 && out[..2] == [lines[0], "#endif // " + f]
  {
    RunFirstLine(start, file, lines);
    PlainLineWrittenAsRead(start, file, 1, lines[0]);
    assert Run(start, file, lines[..1]).m.out == [lines[0], "#endif // " + f];
    RunPrefixWritten(start, file, lines, 1);
  }

  /** The first line read is step 1, on the state the file starts from. */
  lemma RunFirstLine(m: Machine, file: string, lines: seq<string>)
    requires |lines| > 0
    ensures Run(m, file, lines[..1]) == match Step(m, file, 1, lines[0])
                                        case Thrown(m') => Aborted(m', 1)
                                        case Next(m') => Completed(m')
  {
    RunExtend(m, file, lines, 0);
    assert lines[..0] == [];
  }

  /**
   * The pending close is not reset between files: a Line[F] on the last
   * line of one source file puts #endif // F after the first line of the
   * next one.
   */
  lemma CloseLineLeaksIntoNextFile(session: Machine, a: SourceFile, b: SourceFile, f: string)
    requires IsSourceFileName(a.name) && IsSourceFileName(b.name)
    requires |a.lines| > 0 && IsWord(f) && Trim(a.lines[|a.lines| - 1]) == "//&Line[" + f + "]"
    requires TransformFile(session, a.name, a.lines).Completed?
    requires |b.lines| > 0 && !StartsWith(Trim(b.lines[0]), "//&")
    ensures var o := CopyAll(session, [a, b]);
      |o.written| == 2 && |o.written[1].lines| >= 2 && o.written[1].lines[..2] == [b.lines[0], "#endif // " + f]
  {
    LineOnLastLineStaysPending(session.(blocks := [], out := []), a.name, a.lines, f);
    var ma := TransformFile(session, a.name, a.lines).m;
    var start := ma.(blocks := [], out := []);
    PendingCloseAfterFirstLine(start, b.name, b.lines, f);
    CopyTwoSourceFiles(TransformFile, session, a, b);
  }
}
