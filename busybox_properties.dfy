/**
 * What the Busybox normalisation promises: how line continuations are
 * joined, which lines the macro rewrites leave alone, and how an IF_
 * macro call is turned into a preprocessor block.
 */
module BusyboxProperties {
  import opened JavaString
  import opened PrepareBusybox

  // ---------------------------------------------------------------------
  // substituteLineContinuation

  /** No line of lines continues on the next one. */
  predicate NoContinuations(lines: seq<string>) {
    forall k :: 0 <= k < |lines| ==> !IsContinued(lines[k])
  }

  /** Every line of run continues on the next one. */
  predicate AllContinued(run: seq<string>) {
    forall k :: 0 <= k < |run| ==> IsContinued(run[k])
  }

  /** The lines of run concatenated, each without its continuation backslash. */
  function Unfolded(run: seq<string>): string {
    Chopped(run, 0, |run|)
  }

  /** The lines concatenated. */
  function Flatten(lines: seq<string>): string {
    if lines == [] then "" else lines[0] + Flatten(lines[1..])
  }

  lemma {:induction false} ChoppedCons(x: string, rest: seq<string>, j: nat)
    requires j <= |rest|
    ensures Chopped([x] + rest, 0, j + 1) == StripContinuation(x) + Chopped(rest, 0, j)
    decreases j
  {
    if j > 0 {
      ChoppedCons(x, rest, j - 1);
      assert ([x] + rest)[j] == rest[j - 1];
    }
  }

  /** The text of a run is the first line's text followed by the rest's. */
  lemma UnfoldedCons(x: string, rest: seq<string>)
    ensures Unfolded([x] + rest) == StripContinuation(x) + Unfolded(rest)
  {
    ChoppedCons(x, rest, |rest|);
  }

  lemma {:induction false} JoinFromPlain(lines: seq<string>)
    requires NoContinuations(lines)
    ensures JoinFrom(lines, "", false) == lines
    decreases |lines|
  {
    if lines != [] {
      JoinFromPlain(lines[1..]);
      assert "" + lines[0] == lines[0];
    }
  }

  /** Without a trailing backslash anywhere, the lines are returned as they are. */
  lemma JoinedUnchanged(lines: seq<string>)
    requires NoContinuations(lines)
    ensures Joined(lines) == lines
  {
    JoinFromPlain(lines);
  }

  lemma {:induction false} JoinFromNoLonger(lines: seq<string>, pending: string, open: bool)
    ensures |JoinFrom(lines, pending, open)| <= |lines| + (if open then 1 else 0)
    decreases |lines|
  {
    if lines != [] {
      if IsContinued(lines[0]) {
        JoinFromNoLonger(lines[1..], pending + StripContinuation(lines[0]), true);
      } else {
        JoinFromNoLonger(lines[1..], "", false);
      }
    }
  }

  /** Joining never adds lines. */
  lemma JoinedNoLonger(lines: seq<string>)
    ensures |Joined(lines)| <= |lines|
  {
    JoinFromNoLonger(lines, "", false);
  }

  lemma {:induction false} FlattenJoinFrom(lines: seq<string>, pending: string, open: bool)
    requires !open ==> pending == ""
    ensures Flatten(JoinFrom(lines, pending, open)) == pending + Unfolded(lines)
    decreases |lines|
  {
    if lines == [] {
      if open {
        assert Flatten([pending]) == pending + Flatten([pending][1..]);
      }
    } else {
      var x := lines[0];
      var rest := lines[1..];
      assert lines == [x] + rest;
      UnfoldedCons(x, rest);
      if IsContinued(x) {
        FlattenJoinFrom(rest, pending + StripContinuation(x), true);
      } else {
        FlattenJoinFrom(rest, "", false);
        var out := [pending + x] + JoinFrom(rest, "", false);
        assert out[1..] == JoinFrom(rest, "", false);
      }
    }
  }

  /**
   * Joining only removes the continuation backslashes: the joined lines,
   * concatenated, are the input lines concatenated with each trailing
   * backslash dropped.
   */
  lemma JoinedKeepsText(lines: seq<string>)
    ensures Flatten(Joined(lines)) == Unfolded(lines)
  {
    FlattenJoinFrom(lines, "", false);
  }

  lemma {:induction false} JoinFromRun(run: seq<string>, xs: seq<string>, pending: string, open: bool)
    requires AllContinued(run)
    ensures JoinFrom(run + xs, pending, open) == JoinFrom(xs, pending + Unfolded(run), open || run != [])
    decreases |run|
  {
    if run == [] {
      assert run + xs == xs;
      assert pending + Unfolded(run) == pending;
    } else {
      var x := run[0];
      var rest := run[1..];
      assert run == [x] + rest;
      assert (run + xs)[1..] == rest + xs;
      UnfoldedCons(x, rest);
      assert (run + xs)[0] == x && IsContinued(x);
      assert AllContinued(rest) by {
        forall k | 0 <= k < |rest| ensures IsContinued(rest[k]) { assert rest[k] == run[k + 1]; }
      }
      JoinFromRun(rest, xs, pending + StripContinuation(x), true);
      assert pending + StripContinuation(x) + Unfolded(rest) == pending + Unfolded(run);
    }
  }

  /**
   * A run of continued lines followed by a line that does not continue
   * becomes one line: the run without its backslashes, then that line.
   */
  lemma JoinedRun(run: seq<string>, last: string, rest: seq<string>)
    requires AllContinued(run) && !IsContinued(last)
    ensures Joined(run + [last] + rest) == [Unfolded(run) + last] + Joined(rest)
  {
    assert run + [last] + rest == run + ([last] + rest);
    JoinFromRun(run, [last] + rest, "", false);
    assert ([last] + rest)[1..] == rest;
    assert "" + Unfolded(run) == Unfolded(run);
  }

  /** A run of continued lines at the end of the file becomes one last line. */
  lemma JoinedTrailingRun(run: seq<string>)
    requires |run| > 0 && AllContinued(run)
    ensures Joined(run) == [Unfolded(run)]
  {
    assert run + [] == run;
    JoinFromRun(run, [], "", false);
    assert "" + Unfolded(run) == Unfolded(run);
  }

  // ---------------------------------------------------------------------
  // The macro rewrites

  /**
   * Every "defined ENABLE_" becomes "defined CONFIG_": the first one, then
   * every one in the rest of the line; a line without it is unchanged, and
   * no rewrite changes the length.
   */
  lemma DefinedEnableMacroRewrite(line: string)
    ensures |NormalizeDefinedEnableMacro(line)| == |line|
    ensures !Contains(line, "defined ENABLE_") ==> NormalizeDefinedEnableMacro(line) == line
    ensures Contains(line, "defined ENABLE_") ==>
      var k := IndexOf(line, "defined ENABLE_");
      NormalizeDefinedEnableMacro(line) == line[..k] + "defined CONFIG_" + NormalizeDefinedEnableMacro(line[k + 15..])
  {
    ReplaceKeepsLength(line, "defined ENABLE_", "defined CONFIG_");
    if Contains(line, "defined ENABLE_") {
      ReplaceFirst(line, "defined ENABLE_", "defined CONFIG_", IndexOf(line, "defined ENABLE_"));
    } else {
      ReplaceAbsent(line, "defined ENABLE_", "defined CONFIG_");
    }
  }

  /** A text without ENABLE_ contains no text that has ENABLE_ in it. */
  lemma WithoutEnable(line: string, pre: string, post: string)
    requires !Contains(line, "ENABLE_")
    ensures !Contains(line, pre + "ENABLE_" + post)
  {
    if Contains(line, pre + "ENABLE_" + post) {
      ContainsPart(line, pre, "ENABLE_", post);
    }
  }

  /** The six substrings on which normalizeEnableMacro rewrites. */
  predicate HasEnableTrigger(line: string) {
    Contains(line, "if ENABLE_") || Contains(line, "if !ENABLE_") || Contains(line, "|| ENABLE_")
    || Contains(line, "&& ENABLE_") || Contains(line, "|| !ENABLE_") || Contains(line, "&& !ENABLE_")
  }

  /**
   * One rewrite of normalizeEnableMacro: replacing target, which ends its
   * trigger, by a longer text when the trigger occurs never shortens the
   * line and changes it exactly when the trigger occurs.
   */
  lemma GuardedRewriteGrows(s: string, trigger: string, pre: string, target: string, replacement: string)
    requires trigger == pre + target && 0 < |target| < |replacement|
    ensures var r := RewriteIfContains(s, trigger, target, replacement);
      (Contains(s, trigger) ==> |r| > |s|) && (!Contains(s, trigger) ==> r == s)
  {
    ReplaceGrows(s, target, replacement);
    if Contains(s, trigger) {
      assert pre + target + "" == trigger;
      ContainsPart(s, pre, target, "");
    }
  }

  /** normalizeEnableMacro returns a line holding none of its six triggers unchanged. */
  lemma EnableMacroWithoutTriggers(line: string)
    requires !HasEnableTrigger(line)
    ensures NormalizeEnableMacro(line) == line
  {
  }

  /**
   * normalizeEnableMacro never shortens a line, and changes it exactly when
   * one of its six triggers occurs in it: the first rewrite whose trigger
   * occurs replaces a text by a longer one.
   */
  lemma EnableMacroChangesIffTriggered(line: string)
    ensures |NormalizeEnableMacro(line)| >= |line|
    ensures NormalizeEnableMacro(line) == line <==> !HasEnableTrigger(line)
  {
    var t1 := RewriteIfContains(line, "if ENABLE_", "if ENABLE_", "if defined CONFIG_");
    var t2 := RewriteIfContains(t1, "if !ENABLE_", "if !ENABLE_", "if !defined CONFIG_");
    var t3 := RewriteIfContains(t2, "|| ENABLE_", "ENABLE_", "defined CONFIG_");
    var t4 := RewriteIfContains(t3, "&& ENABLE_", "ENABLE_", "defined CONFIG_");
    var t5 := RewriteIfContains(t4, "|| !ENABLE_", "!ENABLE_", "!defined CONFIG_");
    var t6 := RewriteIfContains(t5, "&& !ENABLE_", "!ENABLE_", "!defined CONFIG_");
    GuardedRewriteGrows(line, "if ENABLE_", "", "if ENABLE_", "if defined CONFIG_");
    GuardedRewriteGrows(t1, "if !ENABLE_", "", "if !ENABLE_", "if !defined CONFIG_");
    GuardedRewriteGrows(t2, "|| ENABLE_", "|| ", "ENABLE_", "defined CONFIG_");
    GuardedRewriteGrows(t3, "&& ENABLE_", "&& ", "ENABLE_", "defined CONFIG_");
    GuardedRewriteGrows(t4, "|| !ENABLE_", "|| ", "!ENABLE_", "!defined CONFIG_");
    GuardedRewriteGrows(t5, "&& !ENABLE_", "&& ", "!ENABLE_", "!defined CONFIG_");
  }

  /** normalizeEnableMacro leaves a line without ENABLE_ alone: all six triggers need one. */
  lemma EnableMacroWithoutEnable(line: string)
    requires !Contains(line, "ENABLE_")
    ensures NormalizeEnableMacro(line) == line
  {
    WithoutEnable(line, "if ", "");
    WithoutEnable(line, "if !", "");
    WithoutEnable(line, "|| ", "");
    WithoutEnable(line, "&& ", "");
    WithoutEnable(line, "|| !", "");
    WithoutEnable(line, "&& !", "");
    assert "if " + "ENABLE_" + "" == "if ENABLE_";
    assert "if !" + "ENABLE_" + "" == "if !ENABLE_";
    assert "|| " + "ENABLE_" + "" == "|| ENABLE_";
    assert "&& " + "ENABLE_" + "" == "&& ENABLE_";
    assert "|| !" + "ENABLE_" + "" == "|| !ENABLE_";
    assert "&& !" + "ENABLE_" + "" == "&& !ENABLE_";
    EnableMacroWithoutTriggers(line);
  }

  /** Where InsertOrAppend put t: the index it inserted at, or the end of s. */
  lemma InsertedAt(s: string, k: int, t: string) returns (j: nat)
    ensures j <= |s| && InsertOrAppend(s, k, t) == s[..j] + t + s[j..]
  {
    if 0 <= k <= |s| {
      j := k;
    } else {
      j := |s|;
      assert s[..j] == s && s[j..] == [];
    }
  }

  /**
   * normalizeEnableInline leaves lines with _ENABLE_ or #if, and lines
   * without ENABLE_, alone; on any other line it replaces every ENABLE_ by
   * a line break and #if defined CONFIG_, and inserts the block
   * 1 / #else / 0 / #endif once, somewhere in the result.
   */
  lemma EnableInlineInsertsBlock(line: string)
    ensures (Contains(line, "_ENABLE_") || Contains(line, "#if") || !Contains(line, "ENABLE_")) ==>
      NormalizeEnableInline(line) == line
    ensures !(Contains(line, "_ENABLE_") || Contains(line, "#if") || !Contains(line, "ENABLE_")) ==>
      exists k :: 0 <= k <= |EnableAsIf(line)|
        && NormalizeEnableInline(line) == EnableAsIf(line)[..k] + InlineBlock + EnableAsIf(line)[k..]
  {
    if !(Contains(line, "_ENABLE_") || Contains(line, "#if") || !Contains(line, "ENABLE_")) {
      var l := EnableAsIf(line);
      var k := InsertedAt(l, InlinePosition(l), InlineBlock);
      assert 0 <= k <= |l| && NormalizeEnableInline(line) == l[..k] + InlineBlock + l[k..];
    }
  }

  // ---------------------------------------------------------------------
  // normalizeLine

  /** Empty lines and #define / #undef lines are written as they are. */
  lemma NormalizeLineKeepsDirectives(line: string)
    requires |line| == 0 || IsDefineOrUndef(line)
    ensures NormalizeLine(line) == line
  {
  }

  /**
   * Everything from the first // onward is kept verbatim; only the code
   * before it, which holds no //, is normalised.
   */
  lemma NormalizeLineKeepsLineComment(line: string)
    requires !IsDefineOrUndef(line) && Contains(line, "//")
    ensures var k := IndexOf(line, "//");
      0 <= k && k + 2 <= |line| && !Contains(line[..k], "//")
      && NormalizeLine(line) == NormalizeLine(line[..k]) + line[k..]
  {
    var k := IndexOf(line, "//");
    if Contains(line[..k], "//") {
      var j :| 0 <= j <= |line[..k]| - 2 && OccursAt(line[..k], "//", j);
      SliceOfSlice(line, 0, k, j, j + 2);
      assert OccursAt(line, "//", j);
    }
  }

  /** A line inside a block comment that does not close it is written as it is. */
  lemma OpenBlockCommentUnchanged(line: string)
    requires !IsDefineOrUndef(line) && !Contains(line, "//") && !Contains(line, "*/")
    requires MentionsBlockComment(line) && StartsInBlockComment(line)
    ensures NormalizeLine(line) == line
  {
  }

  /** A line with neither ENABLE_ nor IF_ in it. */
  predicate NoMacros(line: string) {
    !Contains(line, "ENABLE_") && !Contains(line, "IF_")
  }

  /** A slice of a line without macros has none either. */
  lemma NoMacrosSlice(line: string, a: nat, b: nat)
    requires a <= b <= |line| && NoMacros(line)
    ensures NoMacros(line[a..b])
  {
    if Contains(line[a..b], "ENABLE_") {
      ContainsOfSlice(line, a, b, "ENABLE_");
    }
    if Contains(line[a..b], "IF_") {
      ContainsOfSlice(line, a, b, "IF_");
    }
  }

  /** The four rewrites leave a line without macros alone. */
  lemma RewriteMacrosWithoutMacros(line: string)
    requires NoMacros(line)
    ensures RewriteMacros(line) == line
  {
    WithoutEnable(line, "defined ", "");
    assert "defined " + "ENABLE_" + "" == "defined ENABLE_";
    DefinedEnableMacroRewrite(line);
    EnableMacroWithoutEnable(line);
  }

  /** normalizeLine changes nothing on a line that has neither ENABLE_ nor IF_ in it, comments or not. */
  lemma {:induction false} NormalizeLineWithoutMacros(line: string)
    requires NoMacros(line)
    ensures NormalizeLine(line) == line
    decreases |line|, 1
  {
    if |line| == 0 || IsDefineOrUndef(line) {
    } else if Contains(line, "//") {
      var index := IndexOf(line, "//");
      NoMacrosSlice(line, 0, index);
      NormalizeLineWithoutMacros(line[..index]);
      assert line[..index] + line[index..] == line;
    } else {
      BlockCommentsWithoutMacros(line);
    }
  }

  lemma {:induction false} BlockCommentsWithoutMacros(line: string)
    requires NoMacros(line)
    ensures NormalizeBlockComments(line) == line
    decreases |line|, 0
  {
    if MentionsBlockComment(line) && StartsInBlockComment(line) {
      if Contains(line, "*/") {
        var k := IndexOf(line, "*/");
        NoMacrosSlice(line, k + 2, |line|);
        assert line[k + 2..|line|] == line[k + 2..];
        NormalizeLineWithoutMacros(line[k + 2..]);
        assert line[..k + 2] + line[k + 2..] == line;
      }
    } else if MentionsBlockComment(line) && Contains(line, "/*") {
      var k := IndexOf(line, "/*");
      NoMacrosSlice(line, 0, k);
      NormalizeLineWithoutMacros(line[..k]);
      assert line[..k] + line[k..] == line;
    } else {
      RewriteMacrosWithoutMacros(line);
    }
  }

  /**
   * A file without line continuations and without ENABLE_ or IF_ anywhere
   * is written back exactly as it was read.
   */
  lemma NormalizedFileWithoutMacros(name: string, lines: seq<string>)
    requires NoContinuations(lines)
    requires forall k :: 0 <= k < |lines| ==> NoMacros(lines[k])
    ensures NormalizedFile(name, lines) == lines
  {
    JoinedUnchanged(lines);
    forall k | 0 <= k < |lines|
      ensures NormalizeLine(lines[k]) == lines[k]
    {
      NormalizeLineWithoutMacros(lines[k]);
    }
  }

  /**
   * The choice of line 431 as written: when a ')' comes after the macro
   * before any ' ' or ',', the block is put at the first ',' after that
   * ')' (past the parenthesis), or appended when there is none, instead of
   * at the ')' itself.
   */
  lemma InlinePositionParenthesisFirst(l: string)
    requires !Contains(l, "if (\n#if defined CONFIG_")
    requires var from := IndexOf(l, "defined CONFIG_") + 10;
      var p := IndexOfFrom(l, ")", from);
      p != -1 && from <= p && forall j :: from <= j < p ==> l[j] != ' ' && l[j] != ','
    ensures var from := IndexOf(l, "defined CONFIG_") + 10;
      var c := IndexOfFrom(l, ",", from);
      InlinePosition(l) == c && (c == -1 || c > IndexOfFrom(l, ")", from))
  {
    var from := IndexOf(l, "defined CONFIG_") + 10;
    var w := IndexOfFrom(l, " ", from);
    var c := IndexOfFrom(l, ",", from);
    var p := IndexOfFrom(l, ")", from);
    OccursAtChar(l, ')', p);
    OccursAtChar(l, ' ', w);
    OccursAtChar(l, ',', c);
  }

  // ---------------------------------------------------------------------
  // normalizeIf

  /** A macro argument whose parentheses are balanced: none closes more than were opened. */
  predicate BalancedArgument(arg: string) {
    Balance(arg, 0, |arg|) == 0 && forall j :: 0 <= j <= |arg| ==> Balance(arg, 0, j) >= 0
  }

  /** Equal stretches of text have equal balance. */
  lemma {:induction false} BalanceOfEqualText(s: string, i: nat, t: string, i': nat, n: nat)
    requires i + n <= |s| && i' + n <= |t| && s[i..i + n] == t[i'..i' + n]
    ensures Balance(s, i, i + n) == Balance(t, i', i' + n)
    decreases n
  {
    if n > 0 {
      assert s[i] == s[i..i + n][0] == t[i'..i' + n][0] == t[i'];
      assert s[i + 1..i + n] == s[i..i + n][1..] == t[i'..i' + n][1..] == t[i' + 1..i' + n];
      BalanceOfEqualText(s, i + 1, t, i' + 1, n - 1);
    }
  }

  /** The balance grows one character at a time at its end. */
  lemma {:induction false} BalanceSnoc(s: string, i: nat, j: nat)
    requires i <= j < |s|
    ensures Balance(s, i, j + 1) == Balance(s, i, j) + Delta(s[j])
    decreases j - i
  {
    if i < j {
      BalanceSnoc(s, i + 1, j);
    }
  }

  /** The closing parenthesis normalizeIf finds is the one that matches: the first at which the depth drops below zero. */
  lemma MatchingParenthesis(s: string, from: nat, n: nat)
    requires from + n < |s| && s[from + n] == ')'
    requires BalancedArgument(s[from..from + n])
    ensures ScanClose(s, from, 0) == from + n
  {
    var arg := s[from..from + n];
    forall j | 0 <= j <= n
      ensures Balance(s, from, from + j) == Balance(arg, 0, j)
    {
      assert s[from..from + j] == arg[0..j];
      BalanceOfEqualText(s, from, arg, 0, j);
    }
    BalanceSnoc(s, from, from + n);
    assert Balance(s, from, from + n + 1) == -1;
    forall j | from <= j <= from + n
      ensures Balance(s, from, j) >= 0
    {
      assert Balance(s, from, from + (j - from)) == Balance(arg, 0, j - from);
    }
  }

  /** In pre + "IF_" + name, with no IF_ in either part, the macro's IF_ is the only one. */
  lemma MacroOccursOnce(pre: string, name: string)
    requires !Contains(pre, "IF_") && !Contains(name, "IF_")
    ensures forall j :: OccursAt(pre + "IF_" + name, "IF_", j) <==> j == |pre|
  {
    var head := pre + "IF_" + name;
    var p := |pre|;
    assert head[p..p + 3] == "IF_";
    forall j | 0 <= j && j != p && j + 3 <= |head|
      ensures !OccursAt(head, "IF_", j)
    {
      var w := head[j..j + 3];
      if j + 3 <= p {
        assert w == pre[j..j + 3];
        assert !OccursAt(pre, "IF_", j);
      } else if j == p - 1 {
        assert w[1] == head[p] == 'I';
      } else if j == p - 2 {
        assert w[2] == head[p] == 'I';
      } else if j == p + 1 {
        assert w[0] == head[p + 1] == 'F';
      } else if j == p + 2 {
        assert w[0] == head[p + 2] == '_';
      } else {
        assert w == name[j - p - 3..j - p];
        assert !OccursAt(name, "IF_", j - p - 3);
      }
    }
  }

  /** An occurrence inside a prefix of s is an occurrence in s, and back. */
  lemma OccursInPrefix(s: string, n: nat, pat: string, j: int)
    requires n <= |s| && 0 <= j && j + |pat| <= n
    ensures OccursAt(s[..n], pat, j) <==> OccursAt(s, pat, j)
  {
    assert s[..n][j..j + |pat|] == s[j..j + |pat|];
  }

  /** IF_NOT_X becomes #if !defined CONFIG_X, on a line of its own. */
  lemma IfGuardOfNotMacro(pre: string, name: string)
    requires !Contains(pre, "IF_") && !Contains(name, "IF_") && StartsWith(name, "NOT_")
    ensures IfGuard(pre + "IF_" + name) == pre + "\n#if !defined CONFIG_" + name[4..]
  {
    var head := pre + "IF_" + name;
    var p := |pre|;
    MacroOccursOnce(pre, name);
    assert head[p..p + 7] == "IF_NOT_";
    forall j | 0 <= j < p
      ensures !OccursAt(head, "IF_NOT_", j)
    {
      if OccursAt(head, "IF_NOT_", j) {
        assert head[j..j + 3] == head[j..j + 7][..3];
        assert OccursAt(head, "IF_", j);
      }
    }
    var rest := name[4..];
    assert head[p + 7..] == rest;
    if Contains(rest, "IF_NOT_") {
      assert "" + "IF_" + "NOT_" == "IF_NOT_";
      ContainsPart(rest, "", "IF_", "NOT_");
      assert name[4..|name|] == rest;
      ContainsOfSlice(name, 4, |name|, "IF_");
    }
    assert OccursAt(head, "IF_NOT_", p);
    ReplaceFirst(head, "IF_NOT_", "\n#if !defined CONFIG_", p);
    ReplaceAbsent(rest, "IF_NOT_", "\n#if !defined CONFIG_");
    assert head[..p] == pre;
  }

  /** IF_X, when X does not start with NOT_, becomes #if defined CONFIG_X, on a line of its own. */
  lemma IfGuardOfMacro(pre: string, name: string)
    requires !Contains(pre, "IF_") && !Contains(name, "IF_") && !StartsWith(name, "NOT_")
    ensures IfGuard(pre + "IF_" + name) == pre + "\n#if defined CONFIG_" + name
  {
    var head := pre + "IF_" + name;
    var p := |pre|;
    MacroOccursOnce(pre, name);
    forall j | 0 <= j <= |head| - 7
      ensures !OccursAt(head, "IF_NOT_", j)
    {
      if j == p {
        assert head[p..p + 7] == "IF_" + name[..4];
        assert name[..4] != "NOT_";
        assert ("IF_" + name[..4])[3..] == name[..4];
        assert "IF_NOT_"[3..] == "NOT_";
      } else if OccursAt(head, "IF_NOT_", j) {
        assert head[j..j + 3] == head[j..j + 7][..3];
        assert OccursAt(head, "IF_", j);
      }
    }
    assert OccursAt(head, "IF_", p);
    ReplaceFirst(head, "IF_", "\n#if defined CONFIG_", p);
    assert head[p + 3..] == name;
    ReplaceAbsent(name, "IF_", "\n#if defined CONFIG_");
    assert head[..p] == pre;
  }

  /** The IF_ macro of a call line is the first IF_ on it. */
  lemma MacroFound(pre: string, name: string, rest: string)
    requires !Contains(pre, "IF_") && !Contains(name, "IF_")
    ensures IndexOf(pre + "IF_" + name + rest, "IF_") == |pre|
  {
    var head := pre + "IF_" + name;
    var line := head + rest;
    var p := |pre|;
    MacroOccursOnce(pre, name);
    assert line[..|head|] == head;
    assert OccursAt(head, "IF_", p);
    OccursInPrefix(line, |head|, "IF_", p);
    forall j | 0 <= j < p
      ensures !OccursAt(line, "IF_", j)
    {
      OccursInPrefix(line, |head|, "IF_", j);
    }
    IndexOfIs(line, "IF_", p);
  }

  /** The first parenthesis after the IF_ of IF_name( is the one behind the name. */
  lemma ArgumentOpens(pre: string, name: string, rest: string)
    requires !Contains(name, "(")
    ensures IndexOfFrom(pre + "IF_" + name + "(" + rest, "(", |pre|) == |pre| + 3 + |name|
  {
    var line := pre + "IF_" + name + "(" + rest;
    var p := |pre|;
    var o := p + 3 + |name|;
    assert line[o..o + 1] == "(";
    forall j | p <= j < o
      ensures !OccursAt(line, "(", j)
    {
      assert line[j..j + 1] == [line[j]];
      if j < p + 3 {
        assert line[j] == "IF_"[j - p];
      } else {
        var k := j - p - 3;
        assert line[j] == name[k];
        assert name[k..k + 1] == [name[k]];
        assert !OccursAt(name, "(", k);
      }
    }
    IndexOfFromIs(line, "(", p, o);
  }

  /** normalizeIf cuts a call line IF_X(arg)post at the parentheses of the call. */
  lemma MacroCallSplit(pre: string, name: string, arg: string, post: string)
    requires !Contains(pre, "IF_") && !Contains(name, "IF_") && !Contains(name, "(")
    requires BalancedArgument(arg)
    ensures var line := pre + "IF_" + name + "(" + arg + ")" + post;
            Contains(line, "IF_") && SplitAtArgument(line) == IfParts(pre + "IF_" + name, "(" + arg, "\n" + post)
  {
    var head := pre + "IF_" + name;
    var line := head + "(" + arg + ")" + post;
    var p := |pre|;
    var o := |head|;
    var c := o + 1 + |arg|;
    MacroFound(pre, name, "(" + arg + ")" + post);
    assert head + ("(" + arg + ")" + post) == line;
    ArgumentOpens(pre, name, arg + ")" + post);
    assert head + "(" + (arg + ")" + post) == line;
    assert OccursAt(line, "IF_", p);
    CallPieces(head, arg, post);
    ArgumentAt(line, o, c);
  }

  /** Where the parts of a call head(arg)post sit in it. */
  lemma CallPieces(head: string, arg: string, post: string)
    ensures var line := head + "(" + arg + ")" + post;
            var o := |head|;
            var c := o + 1 + |arg|;
            line[..o] == head && line[o..c] == "(" + arg && line[o + 1..c] == arg
            && line[c] == ')' && line[c + 1..] == post
  {
    var line := head + "(" + arg + ")" + post;
    var o := |head|;
    var c := o + 1 + |arg|;
    assert line == (head + "(" + arg) + (")" + post);
    assert line[o..c] == "(" + arg;
  }

  /**
   * With the parenthesis after the IF_ at o and a balanced text up to a
   * ')' at c, SplitAtArgument cuts the line at o and c.
   */
  lemma ArgumentAt(line: string, o: nat, c: nat)
    requires IndexOfFrom(line, "(", IndexOf(line, "IF_")) == o
    requires o < c < |line| && line[c] == ')' && BalancedArgument(line[o + 1..c])
    ensures SplitAtArgument(line) == IfParts(line[..o], line[o..c], "\n" + line[c + 1..])
  {
    assert OccursAt(line, "(", o);
    assert line[c..c + 1] == ")";
    assert OccursAt(line, ")", c);
    MatchingParenthesis(line, o + 1, c - o - 1);
  }

  /**
   * A call IF_X(arg) with balanced parentheses in arg becomes the block
   * #if defined CONFIG_X (or #if !defined CONFIG_Y for IF_NOT_Y), arg and
   * #endif, each on a line of its own, followed by what came after the
   * call on a line of its own.
   */
  lemma IfMacroCall(pre: string, name: string, arg: string, post: string)
    requires !Contains(pre, "IF_") && !Contains(name, "IF_") && !Contains(name, "(")
    requires BalancedArgument(arg)
    ensures var guard := if StartsWith(name, "NOT_") then pre + "\n#if !defined CONFIG_" + name[4..]
                         else pre + "\n#if defined CONFIG_" + name;
            IfNormalized(pre + "IF_" + name + "(" + arg + ")" + post) == guard + "\n" + arg + "\n#endif\n" + post
  {
    MacroCallSplit(pre, name, arg, post);
    assert ("(" + arg)[1..] == arg;
    if StartsWith(name, "NOT_") {
      IfGuardOfNotMacro(pre, name);
    } else {
      IfGuardOfMacro(pre, name);
    }
    var g := IfGuard(pre + "IF_" + name);
    assert g + "\n" + arg + "\n#endif" + ("\n" + post) == g + "\n" + arg + "\n#endif\n" + post;
  }

  /**
   * normalizeIf leaves a line without IF_ alone; otherwise the result ends
   * with #endif and the init text, which is empty unless the line has both
   * parentheses and a '(' after the macro, and then a line break followed
   * by the text after the argument's closing parenthesis.
   */
  lemma IfNormalizedShape(line: string)
    ensures !Contains(line, "IF_") ==> IfNormalized(line) == line
    ensures Contains(line, "IF_") ==>
      var opening := IndexOfFrom(line, "(", IndexOf(line, "IF_"));
      var init := if Contains(line, "(") && Contains(line, ")") && opening >= 0
                  then "\n" + line[ClosingIndex(line, opening) + 1..] else "";
      EndsWith(IfNormalized(line), "\n#endif" + init)
  {
    if Contains(line, "IF_") {
      IfNormalizedEnds(line);
      InitOfSplit(line);
    }
  }

  /** The result of normalizeIf on a line with IF_ ends with #endif and the init text. */
  lemma IfNormalizedEnds(line: string)
    requires Contains(line, "IF_")
    ensures EndsWith(IfNormalized(line), "\n#endif" + SplitAtArgument(line).init)
  {
    var p := SplitAtArgument(line);
    var front := IfGuard(p.head) + "\n" + (if |p.variable| != 0 then p.variable[1..] else "");
    assert IfNormalized(line) == front + ("\n#endif" + p.init);
    EndsWithSuffix(front, "\n#endif" + p.init);
  }

  /** The init text of the cut: the rest after the closing parenthesis, or nothing. */
  lemma InitOfSplit(line: string)
    ensures var opening := IndexOfFrom(line, "(", IndexOf(line, "IF_"));
      SplitAtArgument(line).init
      == if Contains(line, "(") && Contains(line, ")") && opening >= 0
         then "\n" + line[ClosingIndex(line, opening) + 1..] else ""
  {
  }

  /** A text ends with what is appended to it. */
  lemma EndsWithSuffix(a: string, b: string)
    ensures EndsWith(a + b, b)
  {
    assert (a + b)[|a + b| - |b|..] == b;
  }

  // ---------------------------------------------------------------------
  // normalizeDir

  /** Two trees with the same directories and file names in the same places. */
  predicate SameTree(a: Node, b: Node)
    decreases a
  {
    a.name == b.name && a.Directory? == b.Directory?
    && (a.Directory? ==>
          |a.children| == |b.children|
          && forall k | 0 <= k < |a.children| :: SameTree(a.children[k], b.children[k]))
  }

  /** normalizeDir rewrites files in place: no file or directory is added, dropped or renamed. */
  lemma {:induction false} NormalizedDirKeepsTree(n: Node)
    ensures SameTree(n, NormalizedDir(n))
    decreases n
  {
    match n
    case Directory(name, children) =>
      forall k | 0 <= k < |children|
        ensures SameTree(children[k], NormalizedDir(n).children[k])
      {
        NormalizedDirKeepsTree(children[k]);
      }
    case TextFile(_, _) =>
  }

  /** Every .c and .h file of the tree is free of line continuations and of ENABLE_ and IF_. */
  predicate MacroFreeSources(n: Node)
    decreases n
  {
    match n
    case Directory(_, children) => forall k | 0 <= k < |children| :: MacroFreeSources(children[k])
    case TextFile(name, lines) =>
      IsNormalizedFileName(name) ==> NoContinuations(lines) && forall k | 0 <= k < |lines| :: NoMacros(lines[k])
  }

  /**
   * A tree whose .c and .h files hold no continuations and no macros comes
   * out of normalizeDir exactly as it went in, whatever its other files say.
   */
  lemma {:induction false} NormalizedDirWithoutMacros(n: Node)
    requires MacroFreeSources(n)
    ensures NormalizedDir(n) == n
    decreases n
  {
    match n
    case Directory(name, children) =>
      forall k | 0 <= k < |children|
        ensures NormalizedDir(children[k]) == children[k]
      {
        NormalizedDirWithoutMacros(children[k]);
      }
      assert NormalizedDir(n).children == children;
    case TextFile(name, lines) =>
      if IsNormalizedFileName(name) {
        NormalizedFileWithoutMacros(name, lines);
      }
  }
}
