/**
 An independent description of what `seek_block` computes, in terms of the
 depth profile of the text: the number of start characters minus the number of
 end characters in each prefix (a character equal to both counts as a start,
 as in the scanner). The lemmas connect the scanner's outcome and its spans to
 that profile.
 */
module BlockLaws {
  import opened CharIndices
  import opened Misc

  /** How reading `c` changes the depth. */
  function Delta(c: char, startChar: char, endChar: char): int
  {
    if c == startChar then 1 else if c == endChar then -1 else 0
  }

  /** Depth after reading all of `s`, counted without any floor at zero. */
  function Depth(s: seq<char>, startChar: char, endChar: char): int
    decreases |s|
  {
    if |s| == 0 then 0 else Depth(s[..|s| - 1], startChar, endChar) + Delta(s[|s| - 1], startChar, endChar)
  }

  /** No prefix of `s` holds more end characters than start characters. */
  predicate NeverNegative(s: seq<char>, startChar: char, endChar: char)
  {
    forall k :: 0 <= k <= |s| ==> Depth(s[..k], startChar, endChar) >= 0
  }

  /** Strictly increasing positions of `s`. */
  predicate Positions(ps: seq<nat>, s: seq<char>)
  {
    && (forall k :: 0 <= k < |ps| ==> ps[k] < |s|)
    && (forall j, k :: 0 <= j < k < |ps| ==> ps[j] < ps[k])
  }

  /** Positions, in order, at which the depth leaves zero. */
  function Opens(s: seq<char>, startChar: char, endChar: char): (r: seq<nat>)
    ensures Positions(r, s)
    decreases |s|
  {
    if |s| == 0 then []
    else
      var p := s[..|s| - 1];
      Opens(p, startChar, endChar)
        + (if s[|s| - 1] == startChar && Depth(p, startChar, endChar) == 0 then [|s| - 1] else [])
  }

  /** Positions, in order, at which an end character brings the depth back to zero. */
  function Closes(s: seq<char>, startChar: char, endChar: char): (r: seq<nat>)
    ensures Positions(r, s)
    decreases |s|
  {
    if |s| == 0 then []
    else
      var p := s[..|s| - 1];
      Closes(p, startChar, endChar)
        + (if Delta(s[|s| - 1], startChar, endChar) == -1 && Depth(s, startChar, endChar) == 0 then [|s| - 1] else [])
  }

  /** The scanner state after `s` read off the depth profile: the depth is the net
      count, and closed blocks pair the n-th departure from zero with the n-th
      return, an open block being the last departure. */
  predicate Agrees(st: ScanState, s: seq<char>, startChar: char, endChar: char)
  {
    var opens := Opens(s, startChar, endChar);
    var closes := Closes(s, startChar, endChar);
    && st.depth == Depth(s, startChar, endChar)
    && |st.spans| == |closes|
    && |opens| == |closes| + (if st.depth > 0 then 1 else 0)
    && (forall k :: 0 <= k < |st.spans| ==> st.spans[k] == Span(opens[k], closes[k]))
    && (st.depth > 0 ==> opens[|closes|] == st.pending)
  }

  /** Between each departure from zero and the matching return, and after a last
      departure that has no return, the depth stays positive. */
  predicate PositiveInside(s: seq<char>, startChar: char, endChar: char)
  {
    var opens := Opens(s, startChar, endChar);
    var closes := Closes(s, startChar, endChar);
    && (forall k, m :: 0 <= k < |closes| && k < |opens| && opens[k] < m <= closes[k] ==>
          Depth(s[..m], startChar, endChar) > 0)
    && (|opens| > |closes| ==>
          forall m :: opens[|closes|] < m <= |s| ==> Depth(s[..m], startChar, endChar) > 0)
  }

  /** A text never goes negative when its prefix without the last character never
      does and its own depth is not negative. */
  lemma NeverNegativeStep(s: seq<char>, startChar: char, endChar: char)
    requires |s| > 0
    ensures NeverNegative(s, startChar, endChar) <==>
              NeverNegative(s[..|s| - 1], startChar, endChar) && Depth(s, startChar, endChar) >= 0
  {
    var p := s[..|s| - 1];
    assert forall k :: 0 <= k <= |p| ==> p[..k] == s[..k];
    assert s[..|s|] == s;
  }

  /** A start character at depth zero opens a block at the next departure from zero. */
  lemma StepOpenAgrees(s: seq<char>, st: ScanState, startChar: char, endChar: char)
    requires |s| > 0 && s[|s| - 1] == startChar && st.depth == 0
    requires Run(s[..|s| - 1], startChar, endChar) == Ok(st)
    requires Agrees(st, s[..|s| - 1], startChar, endChar)
    ensures Run(s, startChar, endChar) == Ok(ScanState(1, |s| - 1, st.spans))
    ensures Agrees(ScanState(1, |s| - 1, st.spans), s, startChar, endChar)
  {
  }

  /** An end character bringing the depth back to zero closes the pending block
      at the next return to zero. */
  lemma StepCloseAgrees(s: seq<char>, st: ScanState, startChar: char, endChar: char)
    requires |s| > 0 && s[|s| - 1] == endChar && s[|s| - 1] != startChar && st.depth == 1
    requires Run(s[..|s| - 1], startChar, endChar) == Ok(st)
    requires Agrees(st, s[..|s| - 1], startChar, endChar)
    ensures Run(s, startChar, endChar) == Ok(ScanState(0, st.pending, st.spans + [Span(st.pending, |s| - 1)]))
    ensures Agrees(ScanState(0, st.pending, st.spans + [Span(st.pending, |s| - 1)]), s, startChar, endChar)
  {
  }

  /** Every other character that does not fail the scan leaves the spans and both
      position lists alone and moves the depth by its delta. */
  lemma StepOtherAgrees(s: seq<char>, st: ScanState, startChar: char, endChar: char)
    requires |s| > 0
    requires !(s[|s| - 1] == startChar && st.depth == 0)
    requires !(s[|s| - 1] == endChar && s[|s| - 1] != startChar && st.depth <= 1)
    requires Run(s[..|s| - 1], startChar, endChar) == Ok(st)
    requires Agrees(st, s[..|s| - 1], startChar, endChar)
    ensures Run(s, startChar, endChar).Ok?
    ensures Agrees(Run(s, startChar, endChar).value, s, startChar, endChar)
  {
  }

  /** One step of the scan keeps the pairing of spans with departures and returns. */
  lemma StepAgrees(s: seq<char>, st: ScanState, startChar: char, endChar: char)
    requires |s| > 0
    requires Run(s[..|s| - 1], startChar, endChar) == Ok(st)
    requires Agrees(st, s[..|s| - 1], startChar, endChar)
    ensures Run(s, startChar, endChar).Ok? <==> Depth(s, startChar, endChar) >= 0
    ensures Run(s, startChar, endChar).Ok? ==> Agrees(Run(s, startChar, endChar).value, s, startChar, endChar)
  {
    var c := s[|s| - 1];
    if c == startChar && st.depth == 0 {
      StepOpenAgrees(s, st, startChar, endChar);
    } else if c == endChar && c != startChar && st.depth == 1 {
      StepCloseAgrees(s, st, startChar, endChar);
    } else if c == endChar && c != startChar && st.depth == 0 {
      assert Run(s, startChar, endChar).Err?;
    } else {
      StepOtherAgrees(s, st, startChar, endChar);
    }
  }

  /** One more character keeps the depth positive inside blocks. */
  lemma StepPositiveInside(s: seq<char>, st: ScanState, st': ScanState, startChar: char, endChar: char)
    requires |s| > 0
    requires Agrees(st, s[..|s| - 1], startChar, endChar)
    requires PositiveInside(s[..|s| - 1], startChar, endChar)
    requires Agrees(st', s, startChar, endChar)
    ensures PositiveInside(s, startChar, endChar)
  {
    var n := |s|;
    var p := s[..n - 1];
    var opensP, closesP := Opens(p, startChar, endChar), Closes(p, startChar, endChar);
    var opens, closes := Opens(s, startChar, endChar), Closes(s, startChar, endChar);
    var newOpen := s[n - 1] == startChar && Depth(p, startChar, endChar) == 0;
    var newClose := Delta(s[n - 1], startChar, endChar) == -1 && Depth(s, startChar, endChar) == 0;
    assert opens == opensP + (if newOpen then [n - 1] else []);
    assert closes == closesP + (if newClose then [n - 1] else []);
    forall k, m | 0 <= k < |closes| && k < |opens| && opens[k] < m <= closes[k]
      ensures Depth(s[..m], startChar, endChar) > 0
    {
      assert opens[k] == opensP[k];
      assert p[..m] == s[..m];
      if k == |closesP| {
        assert Depth(p, startChar, endChar) > 0;
      }
    }
    if |opens| > |closes| {
      forall m | opens[|closes|] < m <= n
        ensures Depth(s[..m], startChar, endChar) > 0
      {
        if m == n {
          assert s[..m] == s;
        } else {
          assert p[..m] == s[..m];
          assert !newOpen && !newClose;
        }
      }
    }
  }

  /** The scan succeeds on a prefix exactly when the depth never drops below
      zero, and then its state is the one the depth profile predicts. */
  lemma {:induction false} RunFollowsDepth(s: seq<char>, startChar: char, endChar: char)
    ensures Run(s, startChar, endChar).Ok? <==> NeverNegative(s, startChar, endChar)
    ensures Run(s, startChar, endChar).Ok? ==> Agrees(Run(s, startChar, endChar).value, s, startChar, endChar)
    ensures Run(s, startChar, endChar).Ok? ==> PositiveInside(s, startChar, endChar)
    decreases |s|
  {
    if |s| == 0 {
      assert s[..0] == s;
    } else {
      var p := s[..|s| - 1];
      RunFollowsDepth(p, startChar, endChar);
      NeverNegativeStep(s, startChar, endChar);
      match Run(p, startChar, endChar)
      case Err(_) =>
      case Ok(st) =>
        StepAgrees(s, st, startChar, endChar);
        if Run(s, startChar, endChar).Ok? {
          StepPositiveInside(s, st, Run(s, startChar, endChar).value, startChar, endChar);
        }
    }
  }

  /** The three outcomes of `seek_block`, each matched to a shape of the depth profile. */
  lemma OutcomeFollowsDepth(s: seq<char>, startChar: char, endChar: char)
    ensures (SeekBlockSpec(s, startChar, endChar) == Err(EndCharError(startChar, endChar))) <==>
              !NeverNegative(s, startChar, endChar)
    ensures (SeekBlockSpec(s, startChar, endChar) == Err(OddNumberError(endChar, startChar))) <==>
              NeverNegative(s, startChar, endChar) && Depth(s, startChar, endChar) > 0
    ensures SeekBlockSpec(s, startChar, endChar).Ok? <==>
              NeverNegative(s, startChar, endChar) && Depth(s, startChar, endChar) == 0
  {
    RunFollowsDepth(s, startChar, endChar);
  }

  /** On success the n-th span runs from the n-th departure of the depth from zero
      to the n-th return to zero, so there are as many spans as returns. */
  lemma SpansFollowDepth(s: seq<char>, startChar: char, endChar: char)
    requires SeekBlockSpec(s, startChar, endChar).Ok?
    ensures var spans := SeekBlockSpec(s, startChar, endChar).value;
            var opens := Opens(s, startChar, endChar);
            var closes := Closes(s, startChar, endChar);
            && |spans| == |opens| == |closes|
            && forall k :: 0 <= k < |spans| ==>
                 spans[k] == Span(ByteOffset(s, opens[k]), ByteOffset(s, closes[k]))
  {
    RunFollowsDepth(s, startChar, endChar);
  }

  /** Inside a reported block the depth never returns to zero, so start characters
      nested in it open no block of their own. */
  lemma NestingAbsorbed(s: seq<char>, startChar: char, endChar: char)
    requires SeekBlockSpec(s, startChar, endChar).Ok?
    ensures var opens := Opens(s, startChar, endChar);
            var closes := Closes(s, startChar, endChar);
            forall k, m :: 0 <= k < |opens| && k < |closes| && opens[k] < m <= closes[k] ==>
              Depth(s[..m], startChar, endChar) > 0
  {
    RunFollowsDepth(s, startChar, endChar);
  }

  /** Block starts are exactly the start characters met at depth zero. */
  lemma {:induction false} OpensAreDepartures(s: seq<char>, startChar: char, endChar: char, q: nat)
    ensures q in Opens(s, startChar, endChar) <==>
              q < |s| && s[q] == startChar && Depth(s[..q], startChar, endChar) == 0
    decreases |s|
  {
    if |s| > 0 {
      var p := s[..|s| - 1];
      OpensAreDepartures(p, startChar, endChar, q);
      if q < |p| {
        assert p[..q] == s[..q];
      }
    }
  }

  /** Block ends are exactly the end characters that bring the depth back to zero. */
  lemma {:induction false} ClosesAreReturns(s: seq<char>, startChar: char, endChar: char, q: nat)
    ensures q in Closes(s, startChar, endChar) <==>
              q < |s| && s[q] == endChar && s[q] != startChar && Depth(s[..q + 1], startChar, endChar) == 0
    decreases |s|
  {
    if |s| > 0 {
      var p := s[..|s| - 1];
      ClosesAreReturns(p, startChar, endChar, q);
      if q < |p| {
        assert p[..q + 1] == s[..q + 1];
      }
      assert s[..|s|] == s;
    }
  }

  /** Byte offsets of distinct positions differ. */
  lemma SameByteOffset(s: seq<char>, i: nat, j: nat)
    requires i <= |s| && j <= |s|
    requires ByteOffset(s, i) == ByteOffset(s, j)
    ensures i == j
  {
    if i < j {
      ByteOffsetStrictlyIncreasing(s, i, j);
    } else if j < i {
      ByteOffsetStrictlyIncreasing(s, j, i);
    }
  }

  /** On success, a reported block starts at the byte offset of position `q`
      exactly when `q` holds the start character and the depth before it is zero. */
  lemma SpanStartsAreDepartures(s: seq<char>, startChar: char, endChar: char, q: nat)
    requires q <= |s|
    requires SeekBlockSpec(s, startChar, endChar).Ok?
    ensures var spans := SeekBlockSpec(s, startChar, endChar).value;
            (exists k :: 0 <= k < |spans| && spans[k].start == ByteOffset(s, q)) <==>
              q < |s| && s[q] == startChar && Depth(s[..q], startChar, endChar) == 0
  {
    var spans := SeekBlockSpec(s, startChar, endChar).value;
    var opens := Opens(s, startChar, endChar);
    SpansFollowDepth(s, startChar, endChar);
    OpensAreDepartures(s, startChar, endChar, q);
    if k :| 0 <= k < |spans| && spans[k].start == ByteOffset(s, q) {
      SameByteOffset(s, opens[k], q);
      assert q in opens;
    }
    if q in opens {
      var k :| 0 <= k < |opens| && opens[k] == q;
      assert spans[k].start == ByteOffset(s, q);
    }
  }

  /** On success, a reported block ends at the byte offset of position `q` exactly
      when `q` holds an end character (not the start character) that brings the
      depth back to zero. */
  lemma SpanEndsAreReturns(s: seq<char>, startChar: char, endChar: char, q: nat)
    requires q <= |s|
    requires SeekBlockSpec(s, startChar, endChar).Ok?
    ensures var spans := SeekBlockSpec(s, startChar, endChar).value;
            (exists k :: 0 <= k < |spans| && spans[k].end == ByteOffset(s, q)) <==>
              q < |s| && s[q] == endChar && s[q] != startChar && Depth(s[..q + 1], startChar, endChar) == 0
  {
    var spans := SeekBlockSpec(s, startChar, endChar).value;
    var closes := Closes(s, startChar, endChar);
    SpansFollowDepth(s, startChar, endChar);
    ClosesAreReturns(s, startChar, endChar, q);
    if k :| 0 <= k < |spans| && spans[k].end == ByteOffset(s, q) {
      SameByteOffset(s, closes[k], q);
      assert q in closes;
    }
    if q in closes {
      var k :| 0 <= k < |closes| && closes[k] == q;
      assert spans[k].end == ByteOffset(s, q);
    }
  }

  /** With no delimiter in the text the scan never leaves its initial state. */
  lemma {:induction false} RunWithoutDelimiters(s: seq<char>, startChar: char, endChar: char)
    requires forall k :: 0 <= k < |s| ==> s[k] != startChar && s[k] != endChar
    ensures Run(s, startChar, endChar) == Ok(Initial)
    decreases |s|
  {
    if |s| > 0 {
      RunWithoutDelimiters(s[..|s| - 1], startChar, endChar);
    }
  }

  /** Text without either delimiter, the empty string included, has no blocks and no error. */
  lemma NoDelimitersNoBlocks(s: seq<char>, startChar: char, endChar: char)
    requires forall k :: 0 <= k < |s| ==> s[k] != startChar && s[k] != endChar
    ensures SeekBlockSpec(s, startChar, endChar) == Ok([])
  {
    RunWithoutDelimiters(s, startChar, endChar);
  }

  /** With equal start and end characters the scan never fails and never closes a
      block; it is inside one exactly when the character occurs. */
  lemma {:induction false} RunSameDelimiter(s: seq<char>, c: char)
    ensures Run(s, c, c).Ok?
    ensures Run(s, c, c).value.spans == []
    ensures Run(s, c, c).value.depth > 0 <==> c in s
    decreases |s|
  {
    if |s| > 0 {
      var p := s[..|s| - 1];
      RunSameDelimiter(p, c);
      assert s == p + [s[|s| - 1]];
    }
  }

  /** With equal start and end characters every occurrence opens and none closes:
      any occurrence leaves a block unterminated, none gives no blocks. */
  lemma SameDelimiterNeverCloses(s: seq<char>, c: char)
    ensures c !in s ==> SeekBlockSpec(s, c, c) == Ok([])
    ensures c in s ==> SeekBlockSpec(s, c, c) == Err(OddNumberError(c, c))
  {
    RunSameDelimiter(s, c);
  }

  /** A stray end character fails the scan whatever text follows it. */
  lemma StrayCloseIsFinal(s: seq<char>, t: seq<char>, startChar: char, endChar: char)
    requires SeekBlockSpec(s, startChar, endChar) == Err(EndCharError(startChar, endChar))
    ensures SeekBlockSpec(s + t, startChar, endChar) == Err(EndCharError(startChar, endChar))
  {
    var u := s + t;
    assert u[..|s|] == s;
    assert u[..|u|] == u;
    RunErrorIsFinal(u, |s|, |u|, startChar, endChar);
  }
}
