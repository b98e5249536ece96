/** `is_unwanted_line` and `append_output`: which pieces of backend output
    reach the launcher's output area. Each of the eleven patterns is applied
    with `re.match`, so it is anchored at the start; its `$` succeeds at the
    end of the text or just before one final '\n', and its `.` never matches
    '\n'. */
module LogFilter {
  import opened Text
  import opened Ansi

  const Macron: char := '\U{AF}'          // '¯'
  const CircumflexA: char := '\U{C2}'     // 'Â'
  const MojibakeRule: string := [Macron, CircumflexA]
  const ShutdownPrompt: string := "Press Enter to shutdown DwemerDistro"

  predicate IsRuleChar(c: char)
  {
    IsSpace(c) || c == '_' || c == Macron
  }

  /** `[\s_¯]+` */
  predicate RuleChars(u: string)
  {
    |u| > 0 && forall i :: 0 <= i < |u| ==> IsRuleChar(u[i])
  }

  /** `c+` */
  predicate Repeated(u: string, c: char)
  {
    |u| > 0 && forall i :: 0 <= i < |u| ==> u[i] == c
  }

  /** `(__|¯¯){3,}`: at least three pairs, each of two equal rule characters. */
  predicate DoubledPairs(u: string)
  {
    && |u| >= 6 && |u| % 2 == 0
    && forall i :: 0 <= i < |u| ==> (u[i] == '_' || u[i] == Macron) && (i % 2 == 1 ==> u[i] == u[i - 1])
  }

  /** End of the run of `c` starting at `i` (`c*`, greedy). */
  function SkipChar(u: string, i: nat, c: char): (j: nat)
    requires i <= |u|
    ensures i <= j <= |u|
    ensures forall k :: i <= k < j ==> u[k] == c
    ensures j == |u| || u[j] != c
    decreases |u| - i
  {
    if i < |u| && u[i] == c then SkipChar(u, i + 1, c) else i
  }

  /** `(\s*c{5,}\s*)+` matches `u[i..]`. Taking whole runs is the only way
      to match: `c` is not whitespace, so a run of `c` shorter than five can
      be neither split nor extended. */
  predicate GroupsFrom(u: string, i: nat, c: char)
    requires i <= |u|
    decreases |u| - i
  {
    var a := SkipSpace(u, i);
    var b := SkipChar(u, a, c);
    var e := SkipSpace(u, b);
    b - a >= 5 && (e == |u| || GroupsFrom(u, e, c))
  }

  /** `.*X.*` up to `$`: the text has no newline and holds `x`. */
  predicate LineContaining(u: string, x: string)
  {
    '\n' !in u && Contains(u, x)
  }

  /** The eleven patterns of `is_unwanted_line`, in the order it tries them. */
  datatype Pattern =
    | RuleLine          // ^[\s_¯]+$
    | Underscores       // ^_+$
    | Macrons           // ^¯+$
    | Dashes            // ^-+$
    | EqualSigns        // ^=+$
    | Blank             // ^\s*$
    | DoubledRule       // ^(__|¯¯){3,}$
    | UnderscoreGroups  // ^(\s*_{5,}\s*)+$
    | MacronGroups      // ^(\s*¯{5,}\s*)+$
    | MojibakeLine      // ^.*¯Â.*$
    | ShutdownLine      // ^.*Press Enter to shutdown DwemerDistro.*$

  const UnwantedPatterns: seq<Pattern> :=
    [RuleLine, Underscores, Macrons, Dashes, EqualSigns, Blank,
     DoubledRule, UnderscoreGroups, MacronGroups, MojibakeLine, ShutdownLine]

  /** The pattern between `^` and `$` matches all of `u`. */
  predicate BodyMatches(p: Pattern, u: string)
  {
    match p
    case RuleLine => RuleChars(u)
    case Underscores => Repeated(u, '_')
    case Macrons => Repeated(u, Macron)
    case Dashes => Repeated(u, '-')
    case EqualSigns => Repeated(u, '=')
    case Blank => AllSpace(u)
    case DoubledRule => DoubledPairs(u)
    case UnderscoreGroups => GroupsFrom(u, 0, '_')
    case MacronGroups => GroupsFrom(u, 0, Macron)
    case MojibakeLine => LineContaining(u, MojibakeRule)
    case ShutdownLine => LineContaining(u, ShutdownPrompt)
  }

  /** `re.match(pattern, t)`: the body matches the whole text, or all of it
      but a final newline, where `$` also succeeds. */
  predicate Matches(p: Pattern, t: string)
  {
    BodyMatches(p, t) || (|t| > 0 && t[|t| - 1] == '\n' && BodyMatches(p, t[..|t| - 1]))
  }

  /** `is_unwanted_line`: some pattern matches. */
  predicate IsUnwantedLine(t: string)
  {
    exists p :: p in UnwantedPatterns && Matches(p, t)
  }

  /** No newline in `t` except possibly as its last character. */
  predicate SingleLine(t: string)
  {
    forall i :: 0 <= i < |t| - 1 ==> t[i] != '\n'
  }

  /* ---------- the redundant patterns ---------- */

  lemma {:induction false} GroupsAreRuleChars(u: string, i: nat, c: char)
    requires i <= |u| && (c == '_' || c == Macron)
    requires GroupsFrom(u, i, c)
    ensures i < |u| && forall k :: i <= k < |u| ==> IsRuleChar(u[k])
    decreases |u| - i
  {
    var a := SkipSpace(u, i);
    var b := SkipChar(u, a, c);
    var e := SkipSpace(u, b);
    if e < |u| {
      GroupsAreRuleChars(u, e, c);
    }
  }

  /** Patterns 2, 3, 7, 8 and 9 only match lines that pattern 1 already matches. */
  lemma RedundantPatternsAreRuleLines(u: string)
    ensures Repeated(u, '_') ==> RuleChars(u)
    ensures Repeated(u, Macron) ==> RuleChars(u)
    ensures DoubledPairs(u) ==> RuleChars(u)
    ensures GroupsFrom(u, 0, '_') ==> RuleChars(u)
    ensures GroupsFrom(u, 0, Macron) ==> RuleChars(u)
  {
    if GroupsFrom(u, 0, '_') {
      GroupsAreRuleChars(u, 0, '_');
    }
    if GroupsFrom(u, 0, Macron) {
      GroupsAreRuleChars(u, 0, Macron);
    }
  }

  /** A newline is a rule character, so pattern 1's `$` adds nothing. */
  lemma AnchoredRuleChars(t: string)
    ensures Matches(RuleLine, t) <==> RuleChars(t)
    ensures Matches(Blank, t) <==> AllSpace(t)
  {
    if |t| > 0 && t[|t| - 1] == '\n' {
      var u := t[..|t| - 1];
      assert forall i :: 0 <= i < |u| ==> u[i] == t[i];
    }
  }

  lemma ContainsPrefix(u: string, v: string, x: string)
    requires Contains(u, x)
    ensures Contains(u + v, x)
  {
    ContainsIffOccurs(u, x);
    var i :| OccursAt(u, x, i);
    assert (u + v)[i..i + |x|] == u[i..i + |x|];
    assert OccursAt(u + v, x, i);
    ContainsIffOccurs(u + v, x);
  }

  lemma ContainsDropNewline(u: string, x: string)
    requires Contains(u + "\n", x) && '\n' !in x
    ensures Contains(u, x)
  {
    ContainsIffOccurs(u + "\n", x);
    ContainsIffOccurs(u, x);
    if |x| == 0 {
      assert OccursAt(u, x, 0);
    } else {
      var i :| OccursAt(u + "\n", x, i);
      assert i + |x| <= |u| by {
        assert x[|x| - 1] in x;
        assert (u + "\n")[i..i + |x|][|x| - 1] == x[|x| - 1];
        assert (u + "\n")[|u|] == '\n';
      }
      assert (u + "\n")[i..i + |x|] == u[i..i + |x|];
      assert OccursAt(u, x, i);
    }
  }

  /** Patterns 10 and 11: the marker somewhere on a single line. */
  lemma AnchoredLineContaining(t: string, x: string)
    requires '\n' !in x
    ensures (LineContaining(t, x) || (|t| > 0 && t[|t| - 1] == '\n' && LineContaining(t[..|t| - 1], x)))
            <==> SingleLine(t) && Contains(t, x)
  {
    if SingleLine(t) && Contains(t, x) && '\n' in t {
      var u := t[..|t| - 1];
      assert t[|t| - 1] == '\n';
      assert t == u + "\n";
      ContainsDropNewline(u, x);
    }
    if |t| > 0 && t[|t| - 1] == '\n' && LineContaining(t[..|t| - 1], x) {
      var u := t[..|t| - 1];
      assert t == u + "\n";
      ContainsPrefix(u, "\n", x);
    }
  }

  /** What the filter drops once the redundant patterns are folded in:
      blank lines; lines of whitespace, '_' and '¯'; rules of '-' or '=';
      and any single line holding "¯Â" or the shutdown prompt. */
  predicate PlainlyUnwanted(t: string)
  {
    || AllSpace(t)
    || RuleChars(t)
    || Matches(Dashes, t)
    || Matches(EqualSigns, t)
    || (SingleLine(t) && Contains(t, MojibakeRule))
    || (SingleLine(t) && Contains(t, ShutdownPrompt))
  }

  lemma MatchIsPlainlyUnwanted(p: Pattern, t: string)
    requires Matches(p, t)
    ensures PlainlyUnwanted(t)
  {
    AnchoredRuleChars(t);
    match p
    case RuleLine =>
    case Blank =>
    case Dashes =>
    case EqualSigns =>
    case MojibakeLine =>
      AnchoredLineContaining(t, MojibakeRule);
    case ShutdownLine =>
      AnchoredLineContaining(t, ShutdownPrompt);
    case _ =>
      RedundantPatternsAreRuleLines(t);
      if |t| > 0 && t[|t| - 1] == '\n' {
        RedundantPatternsAreRuleLines(t[..|t| - 1]);
      }
      assert Matches(RuleLine, t);
  }

  /** Each plainly unwanted line is matched by one of the patterns. */
  lemma PlainlyUnwantedMatches(t: string)
    requires PlainlyUnwanted(t)
    ensures IsUnwantedLine(t)
  {
    var ps := UnwantedPatterns;
    if AllSpace(t) {
      AnchoredRuleChars(t);
      assert ps[5] == Blank && Matches(Blank, t);
    } else if RuleChars(t) {
      AnchoredRuleChars(t);
      assert ps[0] == RuleLine && Matches(RuleLine, t);
    } else if Matches(Dashes, t) {
      assert ps[3] == Dashes;
    } else if Matches(EqualSigns, t) {
      assert ps[4] == EqualSigns;
    } else if SingleLine(t) && Contains(t, MojibakeRule) {
      AnchoredLineContaining(t, MojibakeRule);
      assert ps[9] == MojibakeLine && Matches(MojibakeLine, t);
    } else {
      AnchoredLineContaining(t, ShutdownPrompt);
      assert ps[10] == ShutdownLine && Matches(ShutdownLine, t);
    }
  }

  /** `is_unwanted_line` holds exactly for the plainly unwanted lines. */
  lemma UnwantedLineCharacterization(t: string)
    ensures IsUnwantedLine(t) <==> PlainlyUnwanted(t)
  {
    if IsUnwantedLine(t) {
      var p :| p in UnwantedPatterns && Matches(p, t);
      MatchIsPlainlyUnwanted(p, t);
    }
    if PlainlyUnwanted(t) {
      PlainlyUnwantedMatches(t);
    }
  }

  /** A line read with its newline is judged like the same line without it. */
  lemma TrailingNewlineIrrelevant(line: string)
    requires '\n' !in line
    ensures IsUnwantedLine(line + "\n") <==> IsUnwantedLine(line)
  {
    var t := line + "\n";
    assert t[..|t| - 1] == line;
    UnwantedLineCharacterization(t);
    UnwantedLineCharacterization(line);
    assert forall i :: 0 <= i < |line| ==> t[i] == line[i];
    assert SingleLine(t);
    if Contains(t, MojibakeRule) {
      ContainsDropNewline(line, MojibakeRule);
    }
    if Contains(t, ShutdownPrompt) {
      ContainsDropNewline(line, ShutdownPrompt);
    }
    if Contains(line, MojibakeRule) {
      ContainsPrefix(line, "\n", MojibakeRule);
    }
    if Contains(line, ShutdownPrompt) {
      ContainsPrefix(line, "\n", ShutdownPrompt);
    }
    if line != [] && RuleChars(t) {
      assert RuleChars(line);
    }
  }

  /* ---------- append_output ---------- */

  /** `append_output`: strip escape sequences first, then drop the text if
      the stripped form is unwanted; otherwise show the stripped form. */
  function AppendOutput(shown: seq<string>, text: string): (r: seq<string>)
    ensures IsUnwantedLine(StripAnsi(text)) ==> r == shown
    ensures !IsUnwantedLine(StripAnsi(text)) ==> r == shown + [StripAnsi(text)]
  {
    var clean := StripAnsi(text);
    if IsUnwantedLine(clean) then shown else shown + [clean]
  }

  lemma {:induction false} MissingFirstCharNotContained(s: string, x: string)
    requires |x| > 0 && x[0] !in s
    ensures !Contains(s, x)
    decreases |s|
  {
    if s != [] {
      MissingFirstCharNotContained(s[1..], x);
    }
  }

  lemma ResetLineNotUnwanted()
    ensures !IsUnwantedLine("\U{1B}[0m\n")
  {
    var raw := "\U{1B}[0m\n";
    assert !IsRuleChar(raw[0]) && raw[0] != '-' && raw[0] != '=';
    assert !SingleLine(raw) || !Contains(raw, MojibakeRule) by {
      MissingFirstCharNotContained(raw, MojibakeRule);
    }
    assert !SingleLine(raw) || !Contains(raw, ShutdownPrompt) by {
      MissingFirstCharNotContained(raw, ShutdownPrompt);
    }
    UnwantedLineCharacterization(raw);
  }

  lemma ResetLineStripsToNewline()
    ensures StripAnsi("\U{1B}[0m\n") == "\n"
  {
    var reset := "\U{1B}[0m";
    assert CsiSplitsAt(reset, 3);
    assert "\U{1B}[0m\n" == reset + "\n";
    LeadingSequenceRemoved(reset, "\n");
    EscFreePrefixKept("\n", "");
    assert "\n" + "" == "\n";
  }

  /** The filter sees the stripped text: a colour reset on an otherwise empty
      line is dropped although the raw text is not an unwanted line. */
  lemma FilterSeesStrippedText(shown: seq<string>)
    ensures !IsUnwantedLine("\U{1B}[0m\n")
    ensures StripAnsi("\U{1B}[0m\n") == "\n" && IsUnwantedLine("\n")
    ensures AppendOutput(shown, "\U{1B}[0m\n") == shown
  {
    ResetLineNotUnwanted();
    ResetLineStripsToNewline();
    assert AllSpace("\n");
    UnwantedLineCharacterization("\n");
  }
}
