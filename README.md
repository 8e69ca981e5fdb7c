# File signer: marker scheme, stripping, signing and verifying

A model of the text-level core of `FileSigner.py`, a desktop tool that
"signs" source files. Signing appends three comment lines at the end of a
file:

- a unique identifier (`_SIGNATURE_<uuid>`);
- the SHA-256 of the file's body (`_HASH_<hex>`);
- the signing time (`_SIGNED_<YYYY-MM-DD HH:MM:SS>`).

The comment syntax depends on the file's extension. Verifying reads the
identifier and hash back with three pattern searches. It then recomputes the
hash over the body with every marker line stripped, and compares the two.
Removing a signature writes the stripped body back.

The project has four modules, one per concern of the source:

- `TextOps` (`text_ops.dfy`) models the Python string operations the core
  relies on:
  - `str.split('\n')` and `'\n'.join`;
  - `in` on strings;
  - `str.strip()` over Python's whitespace set;
  - `str.lower()`;
  - `str.replace('\n\n\n', '\n\n')`.

  It also proves the laws about them that the rest uses.
- `MarkerCodec` (`marker_codec.dfy`) holds:
  - the `COMMENT_STYLES` / `CLOSING_COMMENT` tables and `get_comment_lines`;
  - the three `re.search` patterns of `extract_signature_data`, written as
    explicit scanners: the leftmost tag occurrence followed by a greedy
    `[a-f0-9-]+` or `[a-f0-9]+` run, or a fixed 19-character timestamp.
- `BodyExtractor` (`body_extractor.dfy`) holds `remove_signature_lines`. The
  function `Strip` specifies it. The method `RemoveSignatureLines` has the
  source's `for` filter loop and its `while '\n\n\n' in result` loop, and is
  proved equal to `Strip`.
- `FileSigner` (`file_signer.dfy`) holds:
  - the text `add_signature` writes;
  - the decision of `verify_signature` (`Unsigned`, `Valid` or `Tampered`);
  - the class `SignedFile`, whose methods `Sign` and `RemoveSignature`
    overwrite the file's text and whose method `Verify` only reads it.

  The digest function (SHA-256 over UTF-8), the fresh identifier and the
  clock reading are parameters.

Some of the behaviour these proofs establish:

- Stripping drops every line that mentions a tag and leaves no run of three
  line breaks. It keeps every other line in order, with each run of empty
  lines reduced to one empty line. Only lines with no character at all are
  collapsed: a line holding only spaces or tabs is kept. The exception is at
  the two ends of the kept block. `strip()` removes every whitespace
  character before the first non-whitespace character of the block and every
  one after the last. So all-whitespace kept lines at the start or the end
  disappear entirely, and the first and last remaining lines lose their
  leading and trailing whitespace; the kept lines `["  ", " x"]` give `"x"`.
  Stripping is idempotent.
- Stripping a signed text gives back exactly the body that was hashed. So
  re-signing replaces the marker block instead of stacking a second one.
- The searches read back exactly the identifier, digest and timestamp a
  signing wrote, whatever the body contains.
- A text without the identifier tag or without the hash tag verifies as
  `Unsigned`. A freshly signed text verifies as `Valid`.

Signing does not preserve the user's text; the model states this as it is.
Any line of the original file that happens to contain `_SIGNATURE_`, `_HASH_`
or `_SIGNED_` is deleted. Leading and trailing whitespace of the whole file
are removed. Runs of empty lines are shortened to one empty line; lines
holding only whitespace are not counted as empty.

## Model

| member | source | states |
|---|---|---|
| `TextOps.Split` | FileSigner.py:156 | `split('\n')` gives at least one piece and no piece holds a line break; `JoinSplit`, `SplitJoin` and `SplitAppend` fix its value |
| `TextOps.Join` | FileSigner.py:162 | `'\n'.join` starts with the first line, followed by a line break when there is a second line; `JoinSplit` and `SplitJoin` make it the inverse of `Split` |
| `TextOps.Contains` | FileSigner.py:158-159 | `p in s`: `p` occurs at some position of `s`; its contract is carried by `ContainsJoin`, `ContainsByLines` and `MissingCharNotContained`, which relate it to lines and characters |
| `TextOps.JoinSplit` | FileSigner.py:156-162 | joining the pieces of `split('\n')` with `'\n'` gives the text back |
| `TextOps.SplitJoin` | FileSigner.py:156-162 | splitting a join of newline-free lines gives the same lines back |
| `TextOps.SplitAppend` | FileSigner.py:156 | splitting `a + "\n" + b` gives the pieces of `a` followed by the pieces of `b` |
| `TextOps.ContainsJoin` | FileSigner.py:158-159 | a single-line pattern occurs in joined lines iff it occurs in one of the lines |
| `TextOps.ContainsByLines` | FileSigner.py:158-159 | a single-line pattern occurs in a text iff it occurs in one of its non-empty lines |
| `TextOps.MissingCharNotContained` | FileSigner.py:158 | a pattern holding a character the text lacks does not occur in it |
| `TextOps.Trim` | FileSigner.py:162 | `strip()` returns the slice of the text with only whitespace before and after it, and the slice neither starts nor ends with whitespace |
| `TextOps.TrimAppendWhitespace` | FileSigner.py:162 | whitespace appended to a text does not change its `strip()` |
| `TextOps.TrimFixedPoint` | FileSigner.py:162 | `strip()` leaves a text unchanged iff it neither starts nor ends with whitespace |
| `TextOps.Lower` | FileSigner.py:111 | `lower()` keeps the length, keeps every character that is not an ASCII capital, and turns each ASCII capital into its lower-case letter (32 code points up), so no capital is left |
| `TextOps.ReplaceTripleNewlines` | FileSigner.py:165 | one `replace('\n\n\n', '\n\n')`; its contract is carried by `ReplaceNoRun`, `ReplaceShortens`, `ReplaceKeepsLines`, `ReplaceKeepsEnds` and `ReplaceSquash` |
| `TextOps.ReplaceNoRun` | FileSigner.py:164-165 | without a run of three line breaks the replacement leaves the text unchanged |
| `TextOps.ReplaceShortens` | FileSigner.py:164-165 | the replacement never lengthens the text, and shortens it exactly when `'\n\n\n'` occurs, so the `while` loop ends |
| `TextOps.ReplaceKeepsLines` | FileSigner.py:165 | the replacement keeps the non-empty lines, unchanged and in order |
| `TextOps.ReplaceKeepsEnds` | FileSigner.py:165 | a first and last character that are not line breaks survive the replacement |
| `TextOps.SquashEmpty` | FileSigner.py:164-165 | the reference for the `while` loop on lines: each run of consecutive empty lines is cut down to one empty line; the first line is kept and no line is added |
| `TextOps.SquashNoDouble` | FileSigner.py:164-165 | lines with no two adjacent empty lines are left unchanged by `SquashEmpty` |
| `TextOps.ReplaceSquash` | FileSigner.py:165 | one replacement removes only empty lines from runs of at least two, so the squashed lines are the same before and after |
| `TextOps.TrimmedNoDouble` | FileSigner.py:164-165 | a text with no whitespace at either end and no `'\n\n\n'` has no two adjacent empty lines |
| `MarkerCodec.CommentLines` | FileSigner.py:109-136 | `get_comment_lines`; its contract is carried by `CommentLinesUniform`, `LineParts`, `LineShapes`, `TagsPresent` and `LinesAreSingle` |
| `MarkerCodec.ClosingBranchUnreachable` | FileSigner.py:104-134 | only `.html`/`.xml` and the `/*` style have closing tokens, so the `elif closing:` branch is never taken |
| `MarkerCodec.CommentLinesUniform` | FileSigner.py:109-136 | every marker line is the opening token, a space, the tag and its value, then a space and the closing token for markup and block comments |
| `MarkerCodec.LineParts` | FileSigner.py:115-134 | the opening and closing parts of each branch: `<!-- `/` -->`, `/* `/` */`, or the comment token and a space with nothing after |
| `MarkerCodec.LineShapes` | FileSigner.py:111-134 | all three lines are `<!-- tag -->` for `.html`/`.xml`, `/* tag */` for `.css`, `comment + " " + tag` otherwise, and `# tag` for an extension the table lacks |
| `MarkerCodec.CommentLinesIgnoreCase` | FileSigner.py:111-112 | the extension is looked up case-insensitively |
| `MarkerCodec.CommentTokenChars` | FileSigner.py:76-107 | opening and closing tokens hold only punctuation and spaces; a closing part starts with a space |
| `MarkerCodec.TagsPresent` | FileSigner.py:115-134 | each rendered line contains its own tag |
| `MarkerCodec.LinesAreSingle` | FileSigner.py:115-134 | marker lines hold no line break when the values hold none |
| `MarkerCodec.Run` | FileSigner.py:143-144 | the greedy group is the longest prefix whose characters are all in the class |
| `MarkerCodec.Capture` | FileSigner.py:143-145 | the capture is non-empty exactly when the group can start there, and is then a full value of the field |
| `MarkerCodec.FirstMatch` | FileSigner.py:143-145 | the left-to-right scan for a match returns a position at or after its start where the tag still fits; `FirstMatchMatches`, `FirstMatchLeftmost` and `FirstMatchFinds` fix it as the leftmost match |
| `MarkerCodec.FirstMatchMatches` | FileSigner.py:143-145 | a position the left-to-right scan returns is a match |
| `MarkerCodec.FirstMatchLeftmost` | FileSigner.py:143-145 | the scan skips no match: nothing matches before the position it returns, nor anywhere when it returns none |
| `MarkerCodec.FirstMatchFinds` | FileSigner.py:143-145 | when a match exists and none precedes it, the scan returns exactly that position |
| `MarkerCodec.Search` | FileSigner.py:143-150 | a found value is a full value of the field's pattern |
| `MarkerCodec.SearchFound` | FileSigner.py:143-150 | a field is `None` iff its pattern matches nowhere; otherwise it is the capture at the leftmost match |
| `MarkerCodec.SearchFindsFirst` | FileSigner.py:143-150 | the search reports the capture at the leftmost match |
| `MarkerCodec.FieldValueLowerCase` | FileSigner.py:143-145 | no value of the three groups has an upper-case letter |
| `MarkerCodec.NoUpperCaseCaptured` | FileSigner.py:143-150 | upper-case hex is never captured |
| `MarkerCodec.ExtractSignatureData` | FileSigner.py:138-152 | each field found has the shape of its pattern's group; `SearchFound` and `ParseSigned` give when and which value is found |
| `MarkerCodec.SearchWithoutTag` | FileSigner.py:143-150 | without the tag the field is `None` |
| `MarkerCodec.RunValue` | FileSigner.py:143-144 | the greedy group stops exactly where the class ends |
| `MarkerCodec.CaptureValue` | FileSigner.py:143-145 | a value followed by a character outside the class is captured exactly |
| `MarkerCodec.SearchRenderedLine` | FileSigner.py:143-150 | a line of opening, tag, value and a non-class character reads back the value |
| `MarkerCodec.SearchSkipsLine` | FileSigner.py:143-150 | a line without the tag does not change what the search finds after it |
| `BodyExtractor.KeptLines` | FileSigner.py:157-160 | the `for` filter never adds lines; `KeptLinesMembers`, `KeptAll` and `KeptLinesAppend` say which lines it keeps and in what order |
| `BodyExtractor.KeptLinesMembers` | FileSigner.py:157-160 | the kept lines are exactly the lines without a tag |
| `BodyExtractor.KeptAll` | FileSigner.py:157-160 | lines without any tag are all kept, unchanged |
| `BodyExtractor.KeptLinesAppend` | FileSigner.py:157-160 | filtering works line by line, so kept lines stay in their original order |
| `BodyExtractor.CollapseBlankRuns` | FileSigner.py:164-165 | the repeated replacement leaves no `'\n\n\n'`, keeps the non-empty lines, and keeps a stripped text stripped |
| `BodyExtractor.CollapseSquashes` | FileSigner.py:164-165 | on a text without whitespace at its ends, the loop's result has exactly the lines `SquashEmpty` gives: each run of empty lines becomes one empty line and nothing else changes |
| `BodyExtractor.NoTagByLines` | FileSigner.py:156-160 | a text is tag-free iff each of its lines is |
| `BodyExtractor.FilteredText` | FileSigner.py:156-162 | the joined, stripped kept lines hold no tag and no whitespace at either end |
| `BodyExtractor.Strip` | FileSigner.py:154-167 | the result has no tag line, no whitespace at either end, no `'\n\n\n'`, and the non-empty lines of the filtered text in order |
| `BodyExtractor.StripLines` | FileSigner.py:154-167 | when the kept lines form a block with no whitespace at its ends, the result's non-empty lines are the kept non-empty lines of the input, unchanged and in order, and its lines are the kept lines with each run of empty lines reduced to one |
| `BodyExtractor.StrippedFixed` | FileSigner.py:154-167 | a text is left unchanged iff it has no tag, no whitespace at either end and no `'\n\n\n'` |
| `BodyExtractor.StripIdempotent` | FileSigner.py:154-167 | stripping twice is stripping once |
| `BodyExtractor.SplitSigned` | FileSigner.py:156-194 | a signed text splits into the body's lines, an empty line, the three marker lines and a final empty piece |
| `BodyExtractor.MarkersStripped` | FileSigner.py:154-167 | appending an empty line and three tagged lines leaves the stripped text unchanged |
| `BodyExtractor.RemoveSignatureLines` | FileSigner.py:154-167 | the imperative loops compute exactly `Strip` |
| `FileSigner.SignedText` | FileSigner.py:194 | `final_content` starts with the body and an empty line and ends in a line break; `SplitSigned` gives its lines |
| `FileSigner.SignContent` | FileSigner.py:182-194 | the signed text starts with the stripped body and an empty line; `SignedBodyRestored`, `ParseSigned` and `ResignReplaces` relate it to stripping and parsing |
| `FileSigner.SignedBodyRestored` | FileSigner.py:182-194 | stripping a signed text gives back the body that was hashed |
| `FileSigner.ResignReplaces` | FileSigner.py:182-194 | signing a signed text equals signing its body: markers are replaced, not stacked |
| `FileSigner.SearchMarkerLine` | FileSigner.py:143-150 | a rendered marker line reads back its value, whatever follows it |
| `FileSigner.MarkerLineLacks` | FileSigner.py:115-134 | the identifier line holds no `_HASH_`, and neither it nor the hash line holds `_SIGNED_` |
| `FileSigner.ParseSignedText` | FileSigner.py:143-150 | after a tag-free body the searches read back exactly the marker block's values |
| `FileSigner.ParseSigned` | FileSigner.py:143-150 | the searches read back exactly the identifier, digest and timestamp a signing wrote |
| `FileSigner.VerifyContent` | FileSigner.py:218-227 | `Unsigned` iff the identifier or the hash is missing; `Valid` iff present and equal to the digest of the stripped text |
| `FileSigner.VerifyAfterSign` | FileSigner.py:182-227 | a freshly signed text verifies as `Valid` |
| `FileSigner.UnsignedWithoutTags` | FileSigner.py:218-219 | a text without the identifier tag or without the hash tag is `Unsigned` |
| `FileSigner.RemovedIsUnsigned` | FileSigner.py:655-661 | a text with its signature removed verifies as `Unsigned` |
| `FileSigner.SignedFile.constructor` | FileSigner.py:655-656 | the file holds the given text |
| `FileSigner.SignedFile.Sign` | FileSigner.py:169-200 | the file is overwritten with the signed text, the digest of the body is returned, and the new text verifies as `Valid` |
| `FileSigner.SignedFile.Verify` | FileSigner.py:207-230 | reports the verdict on the file's text, and `True` only for `Valid` |
| `FileSigner.SignedFile.RemoveSignature` | FileSigner.py:655-661 | the file is overwritten with its stripped text, which verifies as `Unsigned` |

## Left out

- File I/O is not modelled. This covers `os.path.exists`, opening and reading,
  and the `try`/`except` that turns every failure into `(False, message)`.
  The file is a string held by `SignedFile`.
- Text-mode newline translation on read and write is not modelled. The text
  is assumed to be the decoded content.
- `os.path.splitext` is not modelled. The extension is passed in as given.
- SHA-256 and UTF-8 encoding are not modelled. The digest is a function
  parameter `hash: string -> string`. Properties that need its output
  (verify after sign) require that output to be lower-case hex.
- `uuid.uuid4()` and `datetime.now().strftime(...)` are parameters.
  `IsIdentifier` admits every lower-case hex-and-dash string, which is more
  than the uuid shape.
- `FileSigner.VerifyContent`: detecting tampering is not claimed. It would need
  collision resistance of the digest. Only `Valid` iff the stored hash equals
  the digest is proved.
- `TextOps.Lower`: only the ASCII letters `A`-`Z` are lowered. Python's
  `str.lower()` also lowers other Unicode letters, and some of them become
  ASCII letters. U+212A KELVIN SIGN lowers to `k`, so Python looks up
  `".\u212At"` as `".kt"` and uses `//`. The model keeps the Kelvin sign,
  finds no table entry and falls back to `#`.
- `MarkerCodec.Capture`: the timestamp's `\d` is taken as `0`-`9`. Python's
  `re` also accepts other Unicode decimal digits there.
- The human-readable messages are not modelled. This includes the
  `SHA256:`/`ID:`/`Data:` text and the 32-character hash preview.
- Progress callbacks, the Tk window, the progress-bar thread,
  `SoftwareProtection` and the licence/watermark constants are not modelled.
- The confirmation dialog of `FileSigner.remove_signature` is not modelled.
  `RemoveSignature` always writes, as the source does after confirmation.
  The source rewrites the file even when the stripped text equals the old
  one; the model does the same.
- `FileSigner.SignedFile.Verify`: the source returns `False` for both an
  unsigned and a tampered file. The model also returns the `Verdict`, which
  tells the two apart.
