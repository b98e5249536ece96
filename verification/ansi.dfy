/** `remove_ansi_escape_sequences`: deletes every 7-bit ANSI escape sequence
    that the launcher's regular expression recognises, scanning left to
    right as `re.sub` does. A sequence is ESC followed either by one Fe byte
    (0x40-0x5A or 0x5C-0x5F), or by '[' then parameter bytes (0x30-0x3F),
    intermediate bytes (0x20-0x2F) and one final byte (0x40-0x7E). */
module Ansi {
  import opened Wrappers

  const ESC: char := '\U{1B}'

  /** `[@-Z\\-_]`: a 7-bit C1 Fe byte other than '[' (CSI). */
  predicate IsFeByte(c: char)
  {
    ('@' <= c <= 'Z') || ('\\' <= c <= '_')
  }

  /** `[0-?]` */
  predicate IsParameterByte(c: char)
  {
    '0' <= c <= '?'
  }

  /** `[ -/]` */
  predicate IsIntermediateByte(c: char)
  {
    ' ' <= c <= '/'
  }

  /** `[@-~]` */
  predicate IsFinalByte(c: char)
  {
    '@' <= c <= '~'
  }

  /** End of the run of parameter bytes starting at `i` (`[0-?]*`, greedy). */
  function SkipParameters(s: string, i: nat): (j: nat)
    requires i <= |s|
    ensures i <= j <= |s|
    ensures forall k :: i <= k < j ==> IsParameterByte(s[k])
    ensures j == |s| || !IsParameterByte(s[j])
    decreases |s| - i
  {
    if i < |s| && IsParameterByte(s[i]) then SkipParameters(s, i + 1) else i
  }

  /** End of the run of intermediate bytes starting at `i` (`[ -/]*`, greedy). */
  function SkipIntermediates(s: string, i: nat): (j: nat)
    requires i <= |s|
    ensures i <= j <= |s|
    ensures forall k :: i <= k < j ==> IsIntermediateByte(s[k])
    ensures j == |s| || !IsIntermediateByte(s[j])
    decreases |s| - i
  {
    if i < |s| && IsIntermediateByte(s[i]) then SkipIntermediates(s, i + 1) else i
  }

  /** The length of the escape sequence the pattern matches at the start of
      `s`, or `None` when the ESC there starts no sequence. The byte classes
      are pairwise disjoint, so the greedy runs are the only way to match. */
  function SequenceLength(s: string): (r: Option<nat>)
    requires |s| > 0 && s[0] == ESC
    ensures r.Some? ==> 2 <= r.value <= |s|
  {
    if |s| >= 2 && IsFeByte(s[1]) then Some(2)
    else if |s| >= 2 && s[1] == '[' then
      var p := SkipParameters(s, 2);
      var q := SkipIntermediates(s, p);
      if q < |s| && IsFinalByte(s[q]) then Some(q + 1) else None
    else None
  }

  /** After "ESC [", bytes `2..p` are parameters and `p..|t|-1` intermediates. */
  ghost predicate CsiSplitsAt(t: string, p: int)
  {
    && 2 <= p <= |t| - 1
    && (forall k :: 2 <= k < p ==> IsParameterByte(t[k]))
    && (forall k :: p <= k < |t| - 1 ==> IsIntermediateByte(t[k]))
  }

  /** The language of the pattern, stated as a grammar. */
  ghost predicate IsEscapeSequence(t: string)
  {
    || (|t| == 2 && t[0] == ESC && IsFeByte(t[1]))
    || (&& |t| >= 3 && t[0] == ESC && t[1] == '['
        && IsFinalByte(t[|t| - 1])
        && exists p :: CsiSplitsAt(t, p))
  }

  /** The scanner matches exactly the sequences of the grammar: it reports
      length `n` at an ESC if and only if the first `n` characters form one. */
  lemma SequenceLengthIffGrammar(s: string, n: nat)
    requires |s| > 0 && s[0] == ESC && n <= |s|
    ensures SequenceLength(s) == Some(n) <==> IsEscapeSequence(s[..n])
  {
    var t := s[..n];
    if SequenceLength(s) == Some(n) && !(|s| >= 2 && IsFeByte(s[1])) {
      var p := SkipParameters(s, 2);
      assert CsiSplitsAt(t, p);
    }
    if IsEscapeSequence(t) && |t| >= 3 {
      var p :| CsiSplitsAt(t, p);
      assert s[1] == '[' && !IsFeByte(s[1]);
      assert forall k :: 2 <= k < p ==> IsParameterByte(s[k]) by {
        assert forall k :: 2 <= k < p ==> s[k] == t[k];
      }
      assert !IsParameterByte(s[p]) by {
        assert s[p] == t[p];
      }
      assert SkipParameters(s, 2) == p;
      assert forall k :: p <= k < n - 1 ==> IsIntermediateByte(s[k]) by {
        assert forall k :: p <= k < n - 1 ==> s[k] == t[k];
      }
      assert !IsIntermediateByte(s[n - 1]) by {
        assert s[n - 1] == t[|t| - 1];
      }
      assert SkipIntermediates(s, p) == n - 1;
    }
  }

  /** `ansi_escape.sub('', text)`. */
  function StripAnsi(s: string): (r: string)
    ensures |r| <= |s|
    ensures ESC !in s ==> r == s
    decreases |s|
  {
    if s == [] then []
    else if s[0] == ESC && SequenceLength(s).Some? then StripAnsi(s[SequenceLength(s).value..])
    else [s[0]] + StripAnsi(s[1..])
  }

  /** An ESC that starts no sequence of the grammar is kept, and scanning
      resumes right after it. */
  lemma LoneEscKept(s: string)
    requires |s| > 0 && s[0] == ESC
    requires forall n :: 0 <= n <= |s| ==> !IsEscapeSequence(s[..n])
    ensures StripAnsi(s) == [ESC] + StripAnsi(s[1..])
  {
    if SequenceLength(s).Some? {
      SequenceLengthIffGrammar(s, SequenceLength(s).value);
    }
  }

  /** `a` is obtained from `b` by deleting characters. */
  ghost predicate IsSubsequence(a: string, b: string)
    decreases |b|
  {
    if b == [] then a == []
    else IsSubsequence(a, b[1..]) || (a != [] && a[0] == b[0] && IsSubsequence(a[1..], b[1..]))
  }

  lemma {:induction false} SubsequenceOfLonger(a: string, t: string, b: string)
    requires IsSubsequence(a, b)
    ensures IsSubsequence(a, t + b)
    decreases |t|
  {
    if t != [] {
      assert (t + b)[1..] == t[1..] + b;
      SubsequenceOfLonger(a, t[1..], b);
    } else {
      assert t + b == b;
    }
  }

  /** Stripping only deletes characters: the result is a subsequence of the input. */
  lemma {:induction false} StripIsSubsequence(s: string)
    ensures IsSubsequence(StripAnsi(s), s)
    decreases |s|
  {
    if s != [] {
      if s[0] == ESC && SequenceLength(s).Some? {
        var n := SequenceLength(s).value;
        StripIsSubsequence(s[n..]);
        SubsequenceOfLonger(StripAnsi(s[n..]), s[..n], s[n..]);
        assert s[..n] + s[n..] == s;
      } else {
        StripIsSubsequence(s[1..]);
        var r := StripAnsi(s);
        assert r[0] == s[0] && r[1..] == StripAnsi(s[1..]);
      }
    }
  }

  /** A complete escape sequence at the front vanishes. */
  lemma LeadingSequenceRemoved(t: string, u: string)
    requires IsEscapeSequence(t)
    ensures StripAnsi(t + u) == StripAnsi(u)
  {
    var s := t + u;
    assert s[..|t|] == t;
    SequenceLengthIffGrammar(s, |t|);
    assert s[|t|..] == u;
  }

  /** A character other than ESC is copied and scanning moves on. */
  lemma NonEscCopied(s: string)
    requires |s| > 0 && s[0] != ESC
    ensures StripAnsi(s) == [s[0]] + StripAnsi(s[1..])
  {
  }

  /** The first character of an ESC-free prefix is copied. */
  lemma EscFreeHeadCopied(p: string, u: string)
    requires p != [] && ESC !in p
    ensures StripAnsi(p + u) == [p[0]] + StripAnsi(p[1..] + u)
    ensures ESC !in p[1..]
  {
    assert (p + u)[0] == p[0] != ESC;
    assert (p + u)[1..] == p[1..] + u;
    NonEscCopied(p + u);
    assert forall i :: 0 <= i < |p[1..]| ==> p[1..][i] == p[i + 1];
  }

  /** Text without ESC passes through in front of whatever follows. */
  lemma {:induction false} EscFreePrefixKept(p: string, u: string)
    requires ESC !in p
    ensures StripAnsi(p + u) == p + StripAnsi(u)
    decreases |p|
  {
    if p != [] {
      EscFreeHeadCopied(p, u);
      EscFreePrefixKept(p[1..], u);
      assert p == [p[0]] + p[1..];
    } else {
      assert p + u == u;
    }
  }

  const BoldRed: string := "\U{1B}[1;31m"
  const Reset: string := "\U{1B}[0m"

  /** The bold-red and reset codes are sequences of the grammar. */
  lemma ColourCodesAreSequences()
    ensures IsEscapeSequence(BoldRed)
    ensures IsEscapeSequence(Reset)
  {
    assert CsiSplitsAt(BoldRed, 6);
    assert CsiSplitsAt(Reset, 3);
  }

  /** A word coloured bold red and then reset loses both codes. */
  lemma ColouredWordStripped(word: string)
    requires ESC !in word
    ensures StripAnsi(BoldRed + word + Reset) == word
  {
    ColourCodesAreSequences();
    LeadingSequenceRemoved(Reset, []);
    assert Reset + [] == Reset;
    EscFreePrefixKept(word, Reset);
    LeadingSequenceRemoved(BoldRed, word + Reset);
    assert BoldRed + word + Reset == BoldRed + (word + Reset);
    assert word + [] == word;
  }

  /** Stripping is not idempotent: removing one sequence can join an earlier
      lone ESC to later text, forming a new sequence. */
  lemma StripNotIdempotent()
    ensures StripAnsi([ESC, ESC, '[', 'm', '[', 'm']) == [ESC, '[', 'm']
    ensures StripAnsi([ESC, '[', 'm']) == []
  {
    var s := [ESC, ESC, '[', 'm', '[', 'm'];
    assert SequenceLength(s) == None;
    assert s[1..] == [ESC, '[', 'm'] + ['[', 'm'];
    assert CsiSplitsAt([ESC, '[', 'm'], 2);
    LeadingSequenceRemoved([ESC, '[', 'm'], ['[', 'm']);
    EscFreePrefixKept(['[', 'm'], []);
    LeadingSequenceRemoved([ESC, '[', 'm'], []);
    assert [ESC, '[', 'm'] + [] == [ESC, '[', 'm'];
    assert ['[', 'm'] + [] == ['[', 'm'];
  }
}
