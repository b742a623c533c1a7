/**
 The delimiter block scanner of `json::misc`: one left-to-right pass over a
 string that tracks the nesting depth of a single start/end character pair and
 reports every maximal top-level balanced region as a pair of byte offsets.

 `Run` is the scan as a pure fold over character positions, `SeekBlockSpec`
 turns its position spans into the byte offsets the source reports, and
 `SeekBlock` is the imperative loop, proved to compute `SeekBlockSpec`.
 */
module Misc {
  import opened CharIndices

  /** The two ways a scan fails; both carry the delimiter characters. */
  datatype BlockError =
    | EndCharError(char, char)    // an end character with no open block: (start, end)
    | OddNumberError(char, char)  // input ran out inside a block: (end, start)

  datatype Result<T> = Ok(value: T) | Err(error: BlockError)

  /** A block: offsets of its start character and of its matching end character. */
  datatype Span = Span(start: nat, end: nat)

  /** The loop state: nesting depth, position of the pending block start, blocks closed so far. */
  datatype ScanState = ScanState(depth: nat, pending: nat, spans: seq<Span>)

  const Initial: ScanState := ScanState(0, 0, [])

  /** `sp` runs from a start character to a later end character of `s`. */
  predicate Delimits(s: seq<char>, sp: Span, startChar: char, endChar: char)
  {
    sp.start < sp.end < |s| && s[sp.start] == startChar && s[sp.end] == endChar
  }

  /** Spans in document order, each ending before the next one starts. */
  predicate Ordered(spans: seq<Span>)
  {
    forall j, k :: 0 <= j < k < |spans| ==> spans[j].end < spans[k].start
  }

  /** What the scan knows after reading `s`: closed blocks are well formed and
      ordered, and an open block starts after all of them at a start character. */
  predicate ValidState(st: ScanState, s: seq<char>, startChar: char, endChar: char)
  {
    && (forall k :: 0 <= k < |st.spans| ==> Delimits(s, st.spans[k], startChar, endChar))
    && Ordered(st.spans)
    && (st.depth > 0 ==>
          && st.pending < |s|
          && s[st.pending] == startChar
          && forall k :: 0 <= k < |st.spans| ==> st.spans[k].end < st.pending)
  }

  /** One iteration of the loop body, reading character `c` at position `at`. It
      fails exactly on an end character (that is not the start character) read
      outside every block. */
  function Step(st: ScanState, at: nat, c: char, startChar: char, endChar: char): (r: Result<ScanState>)
    ensures r.Err? <==> c == endChar && c != startChar && st.depth == 0
    ensures r.Err? ==> r.error == EndCharError(startChar, endChar)
  {
    if c == startChar && st.depth == 0 then
      Ok(ScanState(1, at, st.spans))
    else if c == startChar then
      Ok(st.(depth := st.depth + 1))
    else if c == endChar then
      if st.depth == 0 then Err(EndCharError(startChar, endChar))
      else if st.depth == 1 then Ok(ScanState(0, st.pending, st.spans + [Span(st.pending, at)]))
      else Ok(st.(depth := st.depth - 1))
    else
      Ok(st)
  }

  /** A successful step keeps the closed blocks and adds at most one: the pending
      block, closed by an end character at `at`, with the depth back at zero. */
  lemma StepKeepsSpans(st: ScanState, at: nat, c: char, startChar: char, endChar: char)
    requires Step(st, at, c, startChar, endChar).Ok?
    ensures var st' := Step(st, at, c, startChar, endChar).value;
            && st.spans <= st'.spans
            && |st'.spans| <= |st.spans| + 1
            && (|st'.spans| > |st.spans| ==>
                  c == endChar && st'.depth == 0 && st'.spans[|st.spans|] == Span(st.pending, at))
  {
  }

  /** The loop run over all of `s`, with offsets taken as character positions. */
  function Run(s: seq<char>, startChar: char, endChar: char): (r: Result<ScanState>)
    ensures r.Err? ==> r.error == EndCharError(startChar, endChar)
    decreases |s|
  {
    if |s| == 0 then Ok(Initial)
    else
      match Run(s[..|s| - 1], startChar, endChar)
      case Err(e) => Err(e)
      case Ok(st) => Step(st, |s| - 1, s[|s| - 1], startChar, endChar)
  }

  /** Whatever prefix the scan has read, its state is valid: closed blocks are
      delimited, ordered and disjoint, and an open block starts after them. */
  lemma {:induction false} RunValid(s: seq<char>, startChar: char, endChar: char)
    requires Run(s, startChar, endChar).Ok?
    ensures ValidState(Run(s, startChar, endChar).value, s, startChar, endChar)
    decreases |s|
  {
    if |s| > 0 {
      var p := s[..|s| - 1];
      RunValid(p, startChar, endChar);
      StepValid(s, Run(p, startChar, endChar).value, startChar, endChar);
    }
  }

  /** Reading one more character keeps the state valid. */
  lemma StepValid(s: seq<char>, st: ScanState, startChar: char, endChar: char)
    requires |s| > 0
    requires ValidState(st, s[..|s| - 1], startChar, endChar)
    requires Step(st, |s| - 1, s[|s| - 1], startChar, endChar).Ok?
    ensures ValidState(Step(st, |s| - 1, s[|s| - 1], startChar, endChar).value, s, startChar, endChar)
  {
  }

  /** Reading the first `n` characters is reading `n - 1` of them, then one more step. */
  lemma RunPrefixStep(s: seq<char>, n: nat, startChar: char, endChar: char)
    requires 0 < n <= |s|
    ensures Run(s[..n], startChar, endChar) ==
              match Run(s[..n - 1], startChar, endChar)
              case Err(e) => Err(e)
              case Ok(st) => Step(st, n - 1, s[n - 1], startChar, endChar)
  {
    assert s[..n][..n - 1] == s[..n - 1];
  }

  /** An error is final: once a prefix fails, every longer prefix fails the same way. */
  lemma {:induction false} RunErrorIsFinal(s: seq<char>, n: nat, m: nat, startChar: char, endChar: char)
    requires n <= m <= |s|
    requires Run(s[..n], startChar, endChar).Err?
    ensures Run(s[..m], startChar, endChar) == Run(s[..n], startChar, endChar)
    decreases m - n
  {
    if m > n {
      RunErrorIsFinal(s, n, m - 1, startChar, endChar);
      assert s[..m][..m - 1] == s[..m - 1];
    }
  }

  /** `seek_block` with offsets taken as character positions. */
  function PositionBlocks(s: seq<char>, startChar: char, endChar: char): (r: Result<seq<Span>>)
    ensures r.Ok? ==> Ordered(r.value)
    ensures r.Ok? ==> forall k :: 0 <= k < |r.value| ==> Delimits(s, r.value[k], startChar, endChar)
    ensures r.Err? ==> r.error == EndCharError(startChar, endChar) || r.error == OddNumberError(endChar, startChar)
  {
    match Run(s, startChar, endChar)
    case Err(e) => Err(e)
    case Ok(st) =>
      RunValid(s, startChar, endChar);
      if st.depth != 0 then Err(OddNumberError(endChar, startChar)) else Ok(st.spans)
  }

  /** Spans whose offsets are positions of `s`, start before end. */
  predicate WithinText(s: seq<char>, spans: seq<Span>)
  {
    forall k :: 0 <= k < |spans| ==> spans[k].start < spans[k].end < |s|
  }

  /** The byte offsets of the two characters a position span points at. */
  function ByteSpan(s: seq<char>, sp: Span): (r: Span)
    requires sp.start < sp.end <= |s|
    ensures r.start < r.end
  {
    ByteOffsetStrictlyIncreasing(s, sp.start, sp.end);
    Span(ByteOffset(s, sp.start), ByteOffset(s, sp.end))
  }

  /** Replaces the character positions of `spans` by the byte offsets of those characters. */
  function ToByteSpans(s: seq<char>, spans: seq<Span>): (r: seq<Span>)
    requires WithinText(s, spans)
    ensures |r| == |spans|
    ensures forall k :: 0 <= k < |r| ==>
              r[k].start == ByteOffset(s, spans[k].start) && r[k].end == ByteOffset(s, spans[k].end)
    ensures forall k :: 0 <= k < |r| ==> r[k].start < r[k].end
  {
    if |spans| == 0 then []
    else ToByteSpans(s, spans[..|spans| - 1]) + [ByteSpan(s, spans[|spans| - 1])]
  }

  /** Byte offsets grow with positions, so order between spans carries over. */
  lemma ToByteSpansOrdered(s: seq<char>, spans: seq<Span>)
    requires WithinText(s, spans) && Ordered(spans)
    ensures Ordered(ToByteSpans(s, spans))
  {
    var r := ToByteSpans(s, spans);
    forall j, k | 0 <= j < k < |r|
      ensures r[j].end < r[k].start
    {
      ByteOffsetStrictlyIncreasing(s, spans[j].end, spans[k].start);
    }
  }

  /** What `seek_block` returns: the position-level result with byte offsets. */
  function SeekBlockSpec(s: seq<char>, startChar: char, endChar: char): (r: Result<seq<Span>>)
    ensures r.Ok? ==> Ordered(r.value)
    ensures r.Ok? ==> forall k :: 0 <= k < |r.value| ==> r.value[k].start < r.value[k].end
    ensures r.Err? ==> r.error == EndCharError(startChar, endChar) || r.error == OddNumberError(endChar, startChar)
  {
    match PositionBlocks(s, startChar, endChar)
    case Err(e) => Err(e)
    case Ok(spans) =>
      ToByteSpansOrdered(s, spans);
      Ok(ToByteSpans(s, spans))
  }

  /** Every reported span starts at the byte offset of a start character and ends
      at the byte offset of a later end character. */
  lemma SpansHoldDelimiters(s: seq<char>, startChar: char, endChar: char)
    requires SeekBlockSpec(s, startChar, endChar).Ok?
    ensures var spans := SeekBlockSpec(s, startChar, endChar).value;
            forall k :: 0 <= k < |spans| ==> HeldByDelimiters(s, spans[k], startChar, endChar)
  {
  }

  /** The byte span `b` runs from the start character at some position of `s` to
      the end character at a later position. */
  ghost predicate HeldByDelimiters(s: seq<char>, b: Span, startChar: char, endChar: char)
  {
    exists i, j :: 0 <= i < j < |s| && s[i] == startChar && s[j] == endChar
      && b == Span(ByteOffset(s, i), ByteOffset(s, j))
  }

  /** The scanner as written: a single pass tracking the byte offset of each character. */
  method SeekBlock(input: seq<char>, startChar: char, endChar: char) returns (r: Result<seq<Span>>)
    ensures r == SeekBlockSpec(input, startChar, endChar)
  {
    var startIndex: nat := 0;
    var depth: nat := 0;
    var result: seq<Span> := [];
    var offset: nat := 0;
    var i := 0;
    ghost var pending: nat := 0;
    ghost var spans: seq<Span> := [];
    while i < |input|
      invariant i <= |input|
      invariant offset == ByteOffset(input, i)
      invariant Run(input[..i], startChar, endChar) == Ok(ScanState(depth, pending, spans))
      invariant WithinText(input, spans)
      invariant |result| == |spans|
      invariant forall k :: 0 <= k < |result| ==>
                  result[k] == Span(ByteOffset(input, spans[k].start), ByteOffset(input, spans[k].end))
      invariant depth > 0 ==> pending < i && startIndex == ByteOffset(input, pending)
    {
      var c := input[i];
      RunPrefixStep(input, i + 1, startChar, endChar);
      if c == startChar && depth == 0 {
        startIndex := offset;
        pending := i;
        depth := depth + 1;
      } else if c == startChar {
        depth := depth + 1;
      } else if c == endChar {
        if depth == 0 {
          RunErrorIsFinal(input, i + 1, |input|, startChar, endChar);
          assert input[..|input|] == input;
          return Err(EndCharError(startChar, endChar));
        }
        depth := depth - 1;
        if depth == 0 {
          result := result + [Span(startIndex, offset)];
          spans := spans + [Span(pending, i)];
        }
      }
      offset := offset + Utf8Width(c);
      i := i + 1;
    }
    assert input[..i] == input;
    if depth != 0 {
      return Err(OddNumberError(endChar, startChar));
    }
    assert result == ToByteSpans(input, spans);
    r := Ok(result);
  }
}
