/** Concrete runs of `seek_block` on small inputs, traced one character at a time. */
module BlockExamples {
  import opened CharIndices
  import opened Misc

  /** The scan of `{a{b}c}`, one character at a time. */
  lemma NestedBlockTrace()
    ensures Run("{a{b}c}", '{', '}') == Ok(ScanState(0, 0, [Span(0, 6)]))
  {
    var s := "{a{b}c}";
    assert Run(s[..1], '{', '}') == Ok(ScanState(1, 0, [])) by { RunPrefixStep(s, 1, '{', '}'); }
    assert Run(s[..2], '{', '}') == Ok(ScanState(1, 0, [])) by { RunPrefixStep(s, 2, '{', '}'); }
    assert Run(s[..3], '{', '}') == Ok(ScanState(2, 0, [])) by { RunPrefixStep(s, 3, '{', '}'); }
    assert Run(s[..4], '{', '}') == Ok(ScanState(2, 0, [])) by { RunPrefixStep(s, 4, '{', '}'); }
    assert Run(s[..5], '{', '}') == Ok(ScanState(1, 0, [])) by { RunPrefixStep(s, 5, '{', '}'); }
    assert Run(s[..6], '{', '}') == Ok(ScanState(1, 0, [])) by { RunPrefixStep(s, 6, '{', '}'); }
    assert s[..7] == s;
    RunPrefixStep(s, 7, '{', '}');
    assert [] + [Span(0, 6)] == [Span(0, 6)];
  }

  /** Nested blocks collapse into the outer one. */
  lemma NestedBlockExample()
    ensures SeekBlockSpec("{a{b}c}", '{', '}') == Ok([Span(0, 6)])
  {
    var s := "{a{b}c}";
    NestedBlockTrace();
    assert PositionBlocks(s, '{', '}') == Ok([Span(0, 6)]);
    AsciiByteOffset(s, 0);
    AsciiByteOffset(s, 6);
    assert ToByteSpans(s, [Span(0, 6)]) == [Span(0, 6)];
  }

  /** The scan of `{}x{y}`, one character at a time. */
  lemma SiblingBlocksTrace()
    ensures Run("{}x{y}", '{', '}') == Ok(ScanState(0, 3, [Span(0, 1), Span(3, 5)]))
  {
    var s := "{}x{y}";
    assert Run(s[..1], '{', '}') == Ok(ScanState(1, 0, [])) by { RunPrefixStep(s, 1, '{', '}'); }
    assert Run(s[..2], '{', '}') == Ok(ScanState(0, 0, [Span(0, 1)])) by {
      RunPrefixStep(s, 2, '{', '}');
      assert [] + [Span(0, 1)] == [Span(0, 1)];
    }
    assert Run(s[..3], '{', '}') == Ok(ScanState(0, 0, [Span(0, 1)])) by { RunPrefixStep(s, 3, '{', '}'); }
    assert Run(s[..4], '{', '}') == Ok(ScanState(1, 3, [Span(0, 1)])) by { RunPrefixStep(s, 4, '{', '}'); }
    assert Run(s[..5], '{', '}') == Ok(ScanState(1, 3, [Span(0, 1)])) by { RunPrefixStep(s, 5, '{', '}'); }
    assert s[..6] == s;
    RunPrefixStep(s, 6, '{', '}');
    assert [Span(0, 1)] + [Span(3, 5)] == [Span(0, 1), Span(3, 5)];
  }

  /** Siblings are reported separately, in order. */
  lemma SiblingBlocksExample()
    ensures SeekBlockSpec("{}x{y}", '{', '}') == Ok([Span(0, 1), Span(3, 5)])
  {
    var s := "{}x{y}";
    SiblingBlocksTrace();
    assert PositionBlocks(s, '{', '}') == Ok([Span(0, 1), Span(3, 5)]);
    AsciiByteOffset(s, 0);
    AsciiByteOffset(s, 1);
    AsciiByteOffset(s, 3);
    AsciiByteOffset(s, 5);
    var r := ToByteSpans(s, [Span(0, 1), Span(3, 5)]);
    assert r[0] == Span(0, 1) && r[1] == Span(3, 5);
    assert r == [Span(0, 1), Span(3, 5)];
  }

  /** Offsets are byte offsets: `é` takes two bytes in UTF-8. */
  lemma MultiByteExample()
    ensures SeekBlockSpec("é{x}", '{', '}') == Ok([Span(2, 4)])
  {
    var s := "é{x}";
    assert Run(s[..1], '{', '}') == Ok(ScanState(0, 0, [])) by { RunPrefixStep(s, 1, '{', '}'); }
    assert Run(s[..2], '{', '}') == Ok(ScanState(1, 1, [])) by { RunPrefixStep(s, 2, '{', '}'); }
    assert Run(s[..3], '{', '}') == Ok(ScanState(1, 1, [])) by { RunPrefixStep(s, 3, '{', '}'); }
    assert s[..4] == s;
    RunPrefixStep(s, 4, '{', '}');
    assert [] + [Span(1, 3)] == [Span(1, 3)];
    assert PositionBlocks(s, '{', '}') == Ok([Span(1, 3)]);
    assert Utf8Width(s[0]) == 2;
    assert ByteOffset(s, 1) == 2;
    assert ByteOffset(s, 2) == 3;
    assert ByteOffset(s, 3) == 4;
    assert ToByteSpans(s, [Span(1, 3)]) == [Span(2, 4)];
  }

  /** A stray end character fails at once, even where later text would balance it. */
  lemma StrayCloseExample()
    ensures SeekBlockSpec("}{}", '{', '}') == Err(EndCharError('{', '}'))
  {
    var s := "}{}";
    assert Run(s[..1], '{', '}') == Err(EndCharError('{', '}')) by { RunPrefixStep(s, 1, '{', '}'); }
    RunErrorIsFinal(s, 1, 3, '{', '}');
    assert s[..3] == s;
  }

  /** The empty input, a lone end character, and an unterminated block. */
  lemma SmallExamples()
    ensures SeekBlockSpec("", '{', '}') == Ok([])
    ensures SeekBlockSpec("}", '{', '}') == Err(EndCharError('{', '}'))
    ensures SeekBlockSpec("{{}", '{', '}') == Err(OddNumberError('}', '{'))
  {
    var s := "{{}";
    assert Run(s[..1], '{', '}') == Ok(ScanState(1, 0, [])) by { RunPrefixStep(s, 1, '{', '}'); }
    assert Run(s[..2], '{', '}') == Ok(ScanState(2, 0, [])) by { RunPrefixStep(s, 2, '{', '}'); }
    assert s[..3] == s;
    RunPrefixStep(s, 3, '{', '}');
    assert "}"[..0] == [];
  }
}
