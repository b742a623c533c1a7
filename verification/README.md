# seek_block: a verified model of the delimiter block scanner

This project models `seek_block` from `json/src/misc.rs`. It is a single left-to-right pass
over a string. The pass tracks the nesting depth of one start/end character pair, such as
`{` and `}`. For every maximal top-level balanced region it reports a pair
`(start_offset, end_offset)`. The offsets are the byte offsets of the opening and of the
matching closing character, as Rust's `char_indices()` reports them. The scan fails in two
cases, and any spans found so far are discarded:

- `EndCharError(start, end)`: an end character appears while no block is open.
- `OddNumberError(end, start)`: the input runs out inside a block. The two characters are
  swapped with respect to `EndCharError`.

The project has three modules and one module of examples:

- `CharIndices` (`char_indices.dfy`) gives the UTF-8 byte offset of each character. A Dafny
  `char` is a Unicode scalar value, so its encoded width (1 to 4 bytes) follows from its code
  point. Offsets are therefore exact for any text, not only ASCII.
- `Misc` (`misc.dfy`) holds the error type, the loop body `Step` and the pure fold `Run`
  over character positions. `SeekBlockSpec` is the result with byte offsets. `SeekBlock` is
  the imperative loop; it keeps a running byte offset and is proved equal to `SeekBlockSpec`.
- `BlockLaws` (`block_laws.dfy`) is an independent reference, the depth profile. `Depth`
  counts start characters minus end characters in a prefix; a character equal to both counts
  as a start, as in the source. `Opens` lists the positions where the depth leaves zero.
  `Closes` lists the positions where an end character brings it back to zero. The lemmas tie
  the scanner's outcome and spans to this profile.
- `BlockExamples` (`block_examples.dfy`) traces concrete inputs, including a multi-byte one.

Equal start and end characters are accepted. The start branch is tested first
(json/src/misc.rs:37-43), so every occurrence opens or deepens a block and none ever closes
one. `SameDelimiterNeverCloses` states the result.

## Model

| member | source | states |
|---|---|---|
| CharIndices.Utf8Width | json/src/misc.rs:35 | `char_indices()` moves on by between 1 and 4 bytes per character, the length of one UTF-8 encoded scalar value |
| CharIndices.ByteOffset | json/src/misc.rs:35 | the byte offset of the i-th character lies between i and 4·i |
| CharIndices.ByteOffsetStrictlyIncreasing | json/src/misc.rs:35 | later characters start at strictly larger byte offsets, so offsets keep document order |
| CharIndices.AsciiByteOffset | json/src/misc.rs:35 | on single-byte text the byte offset of a character equals its position |
| Misc.Step | json/src/misc.rs:37-55 | one loop iteration fails iff it reads an end character (not the start character) while no block is open, and the error is then `EndCharError(start, end)` |
| Misc.StepKeepsSpans | json/src/misc.rs:37-55 | a successful iteration keeps every closed span and adds at most one: the pending block, closed by an end character at the current position with the depth back at zero |
| Misc.Run | json/src/misc.rs:30-56 | the only way the pass fails before the input runs out is `EndCharError(start, end)` |
| Misc.RunValid | json/src/misc.rs:30-56 | after any prefix, every closed span runs from a start character to a later end character; spans are ordered and disjoint; an open block starts at a start character after all closed spans |
| Misc.StepValid | json/src/misc.rs:37-55 | one loop iteration keeps that state valid: a new block starts at the current start character, and a closed block ends at the current end character after its start |
| Misc.RunErrorIsFinal | json/src/misc.rs:44-45 | once a prefix fails, every longer prefix fails with the same error: the scan returns at once |
| Misc.PositionBlocks | json/src/misc.rs:28-63 | on success the spans (as positions) are ordered, disjoint and delimited by the start and end characters; failure is `EndCharError(start, end)` or `OddNumberError(end, start)` |
| Misc.ToByteSpans | json/src/misc.rs:49-53 | each span's positions become the byte offsets of those characters, and start < end still holds |
| Misc.ToByteSpansOrdered | json/src/misc.rs:49-53 | turning positions into byte offsets keeps ordered, disjoint spans ordered and disjoint |
| Misc.SeekBlockSpec | json/src/misc.rs:28-63 | on success every span has start < end and each span ends before the next one starts; the only errors are the two `BlockError` variants with their character payloads |
| Misc.SpansHoldDelimiters | json/src/misc.rs:37-53 | every reported span starts at the byte offset of a start character and ends at the byte offset of a later end character |
| Misc.SeekBlock | json/src/misc.rs:28-63 | the loop with a running byte offset returns exactly `SeekBlockSpec`: the same spans, the same error, with an early return on a stray end character |
| BlockLaws.Opens | json/src/misc.rs:37-40 | the positions where depth leaves zero form a strictly increasing sequence of positions of the text |
| BlockLaws.Closes | json/src/misc.rs:44-53 | the positions where depth returns to zero form a strictly increasing sequence of positions of the text |
| BlockLaws.RunFollowsDepth | json/src/misc.rs:32-56 | the scan of a prefix succeeds iff no prefix has more end than start characters; its depth is then the net count, its n-th span pairs the n-th departure from zero with the n-th return, and the depth is positive inside every block |
| BlockLaws.OutcomeFollowsDepth | json/src/misc.rs:44-62 | `EndCharError` iff some prefix has negative net depth; `OddNumberError` iff none does and the final depth is positive; `Ok` iff none does and the final depth is zero |
| BlockLaws.SpansFollowDepth | json/src/misc.rs:37-53 | on success there are as many spans as returns of the depth to zero, and span n runs from the byte offset of departure n to that of return n |
| BlockLaws.NestingAbsorbed | json/src/misc.rs:37-48 | between a span's start and its end the depth never reaches zero, so nested start characters open no span of their own |
| BlockLaws.OpensAreDepartures | json/src/misc.rs:37-40 | a position is a departure of the depth from zero (in `Opens`) iff it holds the start character and the depth before it is zero; this holds on failing inputs too |
| BlockLaws.ClosesAreReturns | json/src/misc.rs:44-53 | a position is a return of the depth to zero (in `Closes`) iff it holds the end character (and not the start character) and the depth after it is zero; this holds on failing inputs too |
| BlockLaws.SpanStartsAreDepartures | json/src/misc.rs:37-40 | on success, some reported span starts at the byte offset of a position iff that position holds the start character and the depth before it is zero |
| BlockLaws.SpanEndsAreReturns | json/src/misc.rs:44-53 | on success, some reported span ends at the byte offset of a position iff that position holds the end character (and not the start character) and the depth after it is zero |
| BlockLaws.NoDelimitersNoBlocks | json/src/misc.rs:30-62 | text without either delimiter, the empty string included, gives `Ok` with no spans, not an error |
| BlockLaws.SameDelimiterNeverCloses | json/src/misc.rs:37-59 | with equal start and end characters, any occurrence gives `OddNumberError` and none gives `Ok` with no spans |
| BlockLaws.StrayCloseIsFinal | json/src/misc.rs:44-45 | a text that fails with `EndCharError` still fails with it whatever text is appended, even text that would balance it |
| BlockExamples.NestedBlockExample | json/src/misc.rs:37-53 | `{a{b}c}` gives the single span (0, 6) |
| BlockExamples.SiblingBlocksExample | json/src/misc.rs:37-53 | `{}x{y}` gives (0, 1) then (3, 5) |
| BlockExamples.MultiByteExample | json/src/misc.rs:35-53 | `é{x}` gives (2, 4), because `é` takes two bytes |
| BlockExamples.StrayCloseExample | json/src/misc.rs:44-45 | `}{}` fails with `EndCharError('{', '}')` |
| BlockExamples.SmallExamples | json/src/misc.rs:44-62 | the empty text gives no spans, `}` gives `EndCharError('{', '}')`, `{{}` gives `OddNumberError('}', '{')` |

## Left out

- `seek_xml_blocks` (json/src/misc.rs:66-117) is not modelled. Its behaviour is that of the
  quick_xml reader and the serde deserializer. Those are external libraries whose semantics
  are outside this model. It also panics on any tokenizer or decode failure.
- `load_from_file` and `read_lines` (json/src/misc.rs:119-130) are file I/O.
- examples/block_test/src/main.rs is a demo that loads a file and prints. It has no logic of
  its own.
- The display strings of `BlockError` are left out. Only the two variants and their character
  payloads are modelled.
- The `usize` to `u64` conversion of offsets, which can panic, is left out. Offsets are
  unbounded `nat`s.
- The `i32` overflow of `depth` is not modelled. It happens at the 2^31-th unclosed start
  character, since `i32::MAX` is 2^31 - 1. A debug build then panics and a release build
  wraps to a negative depth. In the model depth is an unbounded `nat`.
- The source reads a Rust `String`. The model takes the same text as a sequence of Unicode
  scalar values and computes the UTF-8 byte offsets from it. It does not model the byte
  buffer itself.
