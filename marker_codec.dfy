/** The marker format of the file signer: the extension-to-comment table, the
    three marker lines written at the end of a signed file, and the three
    pattern searches that read identifier, hash and timestamp back out of any
    text. */
module MarkerCodec {
  import opened TextOps

  datatype Option<T> = None | Some(value: T)

  const SignatureTag: string := "_SIGNATURE_"
  const HashTag: string := "_HASH_"
  const SignedTag: string := "_SIGNED_"

  // ---------------------------------------------------------------------------
  // Rendering
  // ---------------------------------------------------------------------------

  /** Opening comment token per (lower-case) file extension. */
  const CommentStyles: map<string, string> := map[
    ".py" := "#", ".js" := "//", ".ts" := "//", ".jsx" := "//", ".tsx" := "//",
    ".cpp" := "//", ".c" := "//", ".java" := "//", ".cs" := "//", ".php" := "//",
    ".go" := "//", ".rs" := "//", ".swift" := "//", ".kt" := "//", ".scala" := "//",
    ".html" := "<!--", ".xml" := "<!--", ".css" := "/*", ".scss" := "//",
    ".sql" := "--", ".r" := "#", ".lua" := "--", ".sh" := "#", ".bash" := "#",
    ".rb" := "#"
  ]

  /** Closing token for the opening tokens that need one. */
  const ClosingComment: map<string, string> := map["<!--" := "-->", "/*" := "*/"]

  /** `COMMENT_STYLES.get(ext, "#")`: unmapped extensions use `#`. */
  function CommentStyle(ext: string): string {
    if ext in CommentStyles then CommentStyles[ext] else "#"
  }

  /** `CLOSING_COMMENT.get(comment, "")`. */
  function ClosingFor(comment: string): string {
    if comment in ClosingComment then ClosingComment[comment] else ""
  }

  /** The three marker lines for one signing. */
  datatype MarkerLines = MarkerLines(signature: string, hash: string, time: string)

  /** `get_comment_lines`: wraps `_SIGNATURE_<id>`, `_HASH_<hash>` and
      `_SIGNED_<timestamp>` in the comment syntax of the extension. */
  function CommentLines(ext: string, signature: string, fileHash: string, timestamp: string): MarkerLines {
    var e := Lower(ext);
    var comment := CommentStyle(e);
    var closing := ClosingFor(comment);
    var sigMarker := SignatureTag + signature;
    var hashMarker := HashTag + fileHash;
    var timeMarker := SignedTag + timestamp;
    if e == ".html" || e == ".xml" then
      MarkerLines("<!-- " + sigMarker + " -->", "<!-- " + hashMarker + " -->", "<!-- " + timeMarker + " -->")
    else if comment == "/*" then
      MarkerLines("/* " + sigMarker + " */", "/* " + hashMarker + " */", "/* " + timeMarker + " */")
    else if closing != "" then
      MarkerLines(comment + " " + sigMarker + " " + closing,
                  comment + " " + hashMarker + " " + closing,
                  comment + " " + timeMarker + " " + closing)
    else
      MarkerLines(comment + " " + sigMarker, comment + " " + hashMarker, comment + " " + timeMarker)
  }

  /** What every marker line of an extension starts with, before its tag. */
  function LineOpening(ext: string): string {
    CommentStyle(Lower(ext)) + " "
  }

  /** What every marker line of an extension ends with, after its value. */
  function LineClosing(ext: string): string {
    var closing := ClosingFor(CommentStyle(Lower(ext)));
    if closing == "" then "" else " " + closing
  }

  // Only the markup opener and the block-comment opener have closing tokens,
  // and both are handled before the generic `closing` branch, so that branch
  // is never taken.
  lemma ClosingBranchUnreachable(ext: string)
    ensures var e := Lower(ext);
      ClosingFor(CommentStyle(e)) != "" ==> e == ".html" || e == ".xml" || CommentStyle(e) == "/*"
  {
  }

  /** Every marker line is the opening token, a space, the tag with its value
      and, for block and markup comments, a space and the closing token. */
  lemma CommentLinesUniform(ext: string, signature: string, fileHash: string, timestamp: string)
    ensures var lines := CommentLines(ext, signature, fileHash, timestamp);
      && lines.signature == LineOpening(ext) + SignatureTag + signature + LineClosing(ext)
      && lines.hash == LineOpening(ext) + HashTag + fileHash + LineClosing(ext)
      && lines.time == LineOpening(ext) + SignedTag + timestamp + LineClosing(ext)
  {
    var lines := CommentLines(ext, signature, fileHash, timestamp);
    var o, c := LineOpening(ext), LineClosing(ext);
    assert lines == MarkerLines(o + (SignatureTag + signature) + c,
                                o + (HashTag + fileHash) + c,
                                o + (SignedTag + timestamp) + c) by {
      LineParts(ext);
    }
    Regroup(o, SignatureTag, signature, c);
    Regroup(o, HashTag, fileHash, c);
    Regroup(o, SignedTag, timestamp, c);
  }

  /** The opening and closing parts of each of the branches of `get_comment_lines`. */
  lemma LineParts(ext: string)
    ensures var e, comment := Lower(ext), CommentStyle(Lower(ext));
      && ((e == ".html" || e == ".xml") ==> LineOpening(ext) == "<!-- " && LineClosing(ext) == " -->")
      && (!(e == ".html" || e == ".xml") && comment == "/*" ==> LineOpening(ext) == "/* " && LineClosing(ext) == " */")
      && (!(e == ".html" || e == ".xml") && comment != "/*" ==> LineOpening(ext) == comment + " " && LineClosing(ext) == [])
      && (!(e == ".html" || e == ".xml") && comment != "/*" ==> ClosingFor(comment) == "")
  {
    ClosingBranchUnreachable(ext);
  }

  lemma Regroup(o: string, tag: string, v: string, c: string)
    ensures o + (tag + v) + c == o + tag + v + c
  {
  }

  // The three line shapes: markup comments for `.html` and `.xml`, a block
  // comment for the block-comment style (`.css`), a bare prefix for every
  // other style, and `#` for extensions the table does not know.
  lemma LineShapes(ext: string, signature: string, fileHash: string, timestamp: string)
    ensures var e, lines := Lower(ext), CommentLines(ext, signature, fileHash, timestamp);
      && ((e == ".html" || e == ".xml") ==>
            lines == MarkerLines("<!-- " + SignatureTag + signature + " -->",
                                 "<!-- " + HashTag + fileHash + " -->",
                                 "<!-- " + SignedTag + timestamp + " -->"))
      && (e == ".css" ==>
            lines == MarkerLines("/* " + SignatureTag + signature + " */",
                                 "/* " + HashTag + fileHash + " */",
                                 "/* " + SignedTag + timestamp + " */"))
      && (e != ".html" && e != ".xml" && e != ".css" ==>
            lines == MarkerLines(CommentStyle(e) + " " + SignatureTag + signature,
                                 CommentStyle(e) + " " + HashTag + fileHash,
                                 CommentStyle(e) + " " + SignedTag + timestamp))
      && (e !in CommentStyles ==> lines == MarkerLines("# " + SignatureTag + signature,
                                                        "# " + HashTag + fileHash,
                                                        "# " + SignedTag + timestamp))
  {
    var e := Lower(ext);
    if e == ".html" || e == ".xml" || e == ".css" {
      CommentLinesUniform(ext, signature, fileHash, timestamp);
      LineParts(ext);
    } else {
      PrefixShape(ext, signature, fileHash, timestamp);
    }
  }

  /** Outside markup and block comments a line is the comment token, a space
      and the tag with its value; `#` when the extension is unknown. */
  lemma PrefixShape(ext: string, signature: string, fileHash: string, timestamp: string)
    requires Lower(ext) != ".html" && Lower(ext) != ".xml" && Lower(ext) != ".css"
    ensures var e, lines := Lower(ext), CommentLines(ext, signature, fileHash, timestamp);
      && lines == MarkerLines(CommentStyle(e) + " " + SignatureTag + signature,
                              CommentStyle(e) + " " + HashTag + fileHash,
                              CommentStyle(e) + " " + SignedTag + timestamp)
      && (e !in CommentStyles ==> lines == MarkerLines("# " + SignatureTag + signature,
                                                        "# " + HashTag + fileHash,
                                                        "# " + SignedTag + timestamp))
  {
    var e := Lower(ext);
    var o := CommentStyle(e) + " ";
    assert CommentStyle(e) != "/*";
    CommentLinesUniform(ext, signature, fileHash, timestamp);
    LineParts(ext);
    Regroup(o, SignatureTag, signature, "");
    Regroup(o, HashTag, fileHash, "");
    Regroup(o, SignedTag, timestamp, "");
  }

  /** The extension is looked up case-insensitively. */
  lemma CommentLinesIgnoreCase(ext: string, signature: string, fileHash: string, timestamp: string)
    ensures CommentLines(ext, signature, fileHash, timestamp)
         == CommentLines(Lower(ext), signature, fileHash, timestamp)
  {
    LowerIdempotent(ext);
  }

  /** Comment tokens are punctuation and spaces only: no letter, digit,
      underscore or line break. */
  lemma CommentTokenChars(ext: string)
    ensures forall c <- LineOpening(ext) :: c in " #/-<!*"
    ensures forall c <- LineClosing(ext) :: c in " ->*/"
    ensures LineClosing(ext) == [] || LineClosing(ext)[0] == ' '
  {
  }

  /** Each rendered line carries its own tag. */
  lemma TagsPresent(ext: string, signature: string, fileHash: string, timestamp: string)
    ensures var lines := CommentLines(ext, signature, fileHash, timestamp);
      && Contains(lines.signature, SignatureTag)
      && Contains(lines.hash, HashTag)
      && Contains(lines.time, SignedTag)
  {
    var o, c := LineOpening(ext), LineClosing(ext);
    CommentLinesUniform(ext, signature, fileHash, timestamp);
    TagInLine(o, SignatureTag, signature, c);
    TagInLine(o, HashTag, fileHash, c);
    TagInLine(o, SignedTag, timestamp, c);
  }

  lemma TagInLine(o: string, tag: string, v: string, c: string)
    ensures Contains(o + tag + v + c, tag)
  {
    var line := o + tag + v + c;
    assert line[|o|..|o| + |tag|] == tag;
    assert OccursAt(line, tag, |o|);
  }

  /** Marker lines stay single lines when the values do. */
  lemma LinesAreSingle(ext: string, signature: string, fileHash: string, timestamp: string)
    requires '\n' !in signature && '\n' !in fileHash && '\n' !in timestamp
    ensures var lines := CommentLines(ext, signature, fileHash, timestamp);
      '\n' !in lines.signature && '\n' !in lines.hash && '\n' !in lines.time
  {
    var o, c := LineOpening(ext), LineClosing(ext);
    CommentLinesUniform(ext, signature, fileHash, timestamp);
    assert '\n' !in o && '\n' !in c by {
      CommentTokenChars(ext);
    }
    SingleLine(o, SignatureTag, signature, c);
    SingleLine(o, HashTag, fileHash, c);
    SingleLine(o, SignedTag, timestamp, c);
  }

  lemma SingleLine(o: string, tag: string, v: string, c: string)
    requires '\n' !in o && '\n' !in tag && '\n' !in v && '\n' !in c
    ensures '\n' !in o + tag + v + c
  {
  }

  // ---------------------------------------------------------------------------
  // Parsing
  // ---------------------------------------------------------------------------

  /** The three fields `extract_signature_data` searches for. */
  datatype Field = SignatureField | HashField | TimestampField

  function FieldTag(f: Field): (tag: string)
    ensures tag != [] && tag[0] == '_' && '\n' !in tag
  {
    match f
    case SignatureField => SignatureTag
    case HashField => HashTag
    case TimestampField => SignedTag
  }

  /** `[a-f0-9]`: upper-case hex digits are not in the class. */
  predicate IsLowerHexDigit(c: char) {
    '0' <= c <= '9' || 'a' <= c <= 'f'
  }

  /** The character class of the captured group: `[a-f0-9\-]` for the
      identifier, `[a-f0-9]` for the hash. */
  predicate GroupChar(f: Field, c: char) {
    IsLowerHexDigit(c) || (f == SignatureField && c == '-')
  }

  /** The character `\d{4}-\d{2}-\d{2} \d{2}:\d{2}:\d{2}` wants at position `i`. */
  predicate TimestampCharAt(i: int, c: char) {
    if i == 4 || i == 7 then c == '-'
    else if i == 10 then c == ' '
    else if i == 13 || i == 16 then c == ':'
    else '0' <= c <= '9'
  }

  /** A `YYYY-MM-DD HH:MM:SS` literal, as `strftime("%Y-%m-%d %H:%M:%S")` writes one. */
  predicate IsTimestamp(s: string) {
    |s| == 19 && forall i :: 0 <= i < 19 ==> TimestampCharAt(i, s[i])
  }

  /** A value the group of field `f` matches in full. */
  predicate IsFieldValue(f: Field, v: string) {
    if f == TimestampField then IsTimestamp(v)
    else v != [] && forall c <- v :: GroupChar(f, c)
  }

  /** The greedy `[...]+` group: the longest prefix of `rest` in the class. */
  function Run(f: Field, rest: string): (v: string)
    ensures |v| <= |rest| && v == rest[..|v|]
    ensures forall c <- v :: GroupChar(f, c)
    ensures |v| == |rest| || !GroupChar(f, rest[|v|])
  {
    if rest != [] && GroupChar(f, rest[0]) then [rest[0]] + Run(f, rest[1..]) else []
  }

  /** The group can match at the start of `rest`: one character of the
      class, or a whole timestamp. */
  predicate GroupStarts(f: Field, rest: string) {
    if f == TimestampField then |rest| >= 19 && IsTimestamp(rest[..19])
    else rest != [] && GroupChar(f, rest[0])
  }

  /** What the group captures right after the tag, when `rest` follows the
      tag; empty when the group cannot match there. */
  function Capture(f: Field, rest: string): (v: string)
    ensures v != [] <==> GroupStarts(f, rest)
    ensures v != [] ==> IsFieldValue(f, v)
  {
    if f == TimestampField then
      if |rest| >= 19 && IsTimestamp(rest[..19]) then rest[..19] else []
    else Run(f, rest)
  }

  /** The pattern of field `f` matches at index `i` of `text`. */
  predicate MatchesAt(text: string, f: Field, i: int) {
    OccursAt(text, FieldTag(f), i) && GroupStarts(f, text[i + |FieldTag(f)|..])
  }

  /** Index `i` is the leftmost match, the one `re.search` reports. */
  predicate FirstMatchAt(text: string, f: Field, i: int) {
    MatchesAt(text, f, i) && forall j :: 0 <= j < i ==> !MatchesAt(text, f, j)
  }

  /** The leftmost match at or after `from`. */
  function FirstMatch(text: string, f: Field, from: nat): (r: Option<nat>)
    ensures r.Some? ==> from <= r.value <= |text| - |FieldTag(f)|
    decreases |text| - from
  {
    if from + |FieldTag(f)| > |text| then None
    else if MatchesAt(text, f, from) then Some(from)
    else FirstMatch(text, f, from + 1)
  }

  /** What the scan returns is a match. */
  lemma {:induction false} FirstMatchMatches(text: string, f: Field, from: nat)
    ensures FirstMatch(text, f, from).Some? ==> MatchesAt(text, f, FirstMatch(text, f, from).value)
    decreases |text| - from
  {
    if from + |FieldTag(f)| <= |text| && !MatchesAt(text, f, from) {
      FirstMatchMatches(text, f, from + 1);
    }
  }

  /** The scan skips no match: nothing matches between `from` and what it returns. */
  lemma {:induction false} FirstMatchLeftmost(text: string, f: Field, from: nat, j: int)
    requires from <= j
    requires FirstMatch(text, f, from).None? || j < FirstMatch(text, f, from).value
    ensures !MatchesAt(text, f, j)
    decreases |text| - from
  {
    if from + |FieldTag(f)| <= |text| && !MatchesAt(text, f, from) && from < j {
      FirstMatchLeftmost(text, f, from + 1, j);
    }
  }

  /** The scan from `from` stops at the first match at or after `from`. */
  lemma {:induction false} FirstMatchFinds(text: string, f: Field, from: nat, i: int)
    requires from <= i && MatchesAt(text, f, i)
    requires forall j :: from <= j < i ==> !MatchesAt(text, f, j)
    ensures FirstMatch(text, f, from) == Some(i)
    decreases i - from
  {
    if from < i {
      FirstMatchFinds(text, f, from + 1, i);
    }
  }

  /** `re.search(pattern, text).group(1)`, or `None` when there is no match. */
  function Search(text: string, f: Field): (r: Option<string>)
    ensures r.Some? ==> IsFieldValue(f, r.value)
  {
    match FirstMatch(text, f, 0)
    case None => None
    case Some(i) =>
      FirstMatchMatches(text, f, 0);
      Some(Capture(f, text[i + |FieldTag(f)|..]))
  }

  /** The fields `extract_signature_data` returns; each is independently absent. */
  datatype SignatureData = SignatureData(signature: Option<string>, hash: Option<string>, timestamp: Option<string>)

  /** The parsing half of `extract_signature_data`. */
  function ExtractSignatureData(content: string): (r: SignatureData)
    ensures r.signature.Some? ==> IsFieldValue(SignatureField, r.signature.value)
    ensures r.hash.Some? ==> IsFieldValue(HashField, r.hash.value)
    ensures r.timestamp.Some? ==> IsFieldValue(TimestampField, r.timestamp.value)
  {
    SignatureData(Search(content, SignatureField), Search(content, HashField), Search(content, TimestampField))
  }

  /** The search reports the leftmost match. */
  lemma SearchFindsFirst(text: string, f: Field, i: int)
    requires FirstMatchAt(text, f, i)
    ensures Search(text, f) == Some(Capture(f, text[i + |FieldTag(f)|..]))
  {
    FirstMatchFinds(text, f, 0, i);
    SearchAt(text, f, i);
  }

  /** A field is found exactly when its pattern matches somewhere, and then
      the value is the capture at the leftmost match. */
  lemma SearchFound(text: string, f: Field)
    ensures Search(text, f).Some? <==> exists i :: MatchesAt(text, f, i)
    ensures Search(text, f).Some? ==>
      exists i :: FirstMatchAt(text, f, i) && Search(text, f).value == Capture(f, text[i + |FieldTag(f)|..])
  {
    var r := FirstMatch(text, f, 0);
    if r.Some? {
      FirstMatchIsFirst(text, f);
      assert MatchesAt(text, f, r.value);
    } else {
      NoMatchAnywhere(text, f);
    }
  }

  /** A position the scan from the start returns is the leftmost match. */
  lemma FirstMatchIsFirst(text: string, f: Field)
    requires FirstMatch(text, f, 0).Some?
    ensures FirstMatchAt(text, f, FirstMatch(text, f, 0).value)
  {
    var k := FirstMatch(text, f, 0).value;
    FirstMatchMatches(text, f, 0);
    forall j | 0 <= j < k ensures !MatchesAt(text, f, j) {
      FirstMatchLeftmost(text, f, 0, j);
    }
  }

  /** A scan that finds nothing means the pattern matches nowhere. */
  lemma NoMatchAnywhere(text: string, f: Field)
    requires FirstMatch(text, f, 0).None?
    ensures forall i :: !MatchesAt(text, f, i)
  {
    forall i ensures !MatchesAt(text, f, i) {
      if i < 0 {
        assert !OccursAt(text, FieldTag(f), i);
      } else {
        FirstMatchLeftmost(text, f, 0, i);
      }
    }
  }

  /** No value any of the three groups matches has an upper-case letter. */
  lemma FieldValueLowerCase(f: Field, v: string)
    requires IsFieldValue(f, v)
    ensures forall i :: 0 <= i < |v| ==> !IsUpperAscii(v[i])
  {
    forall i | 0 <= i < |v| ensures !IsUpperAscii(v[i]) {
      if f == TimestampField {
        assert TimestampCharAt(i, v[i]);
      } else {
        assert GroupChar(f, v[i]) by { assert v[i] in v; }
      }
    }
  }

  /** No value the searches capture contains an upper-case letter, so an
      upper-case hex hash is never read back. */
  lemma NoUpperCaseCaptured(text: string, f: Field)
    requires Search(text, f).Some?
    ensures var v := Search(text, f).value;
      forall i :: 0 <= i < |v| ==> !IsUpperAscii(v[i])
  {
    FieldValueLowerCase(f, Search(text, f).value);
  }

  /** A text without the tag has no match of that field. */
  lemma SearchWithoutTag(text: string, f: Field)
    requires !Contains(text, FieldTag(f))
    ensures Search(text, f) == None
  {
    forall i ensures !MatchesAt(text, f, i) {
      if 0 <= i <= |text| - |FieldTag(f)| {
        assert !OccursAt(text, FieldTag(f), i);
      }
    }
    SearchFound(text, f);
  }

  /** The greedy group stops exactly where the class ends. */
  lemma {:induction false} RunValue(f: Field, v: string, rest: string)
    requires forall c <- v :: GroupChar(f, c)
    requires rest == [] || !GroupChar(f, rest[0])
    ensures Run(f, v + rest) == v
  {
    if v == [] {
      assert v + rest == rest;
    } else {
      assert (v + rest)[0] == v[0] && v[0] in v;
      assert (v + rest)[1..] == v[1..] + rest;
      RunValue(f, v[1..], rest);
    }
  }

  /** The capture reads back a value that ends where the class ends. */
  lemma CaptureValue(f: Field, v: string, rest: string)
    requires IsFieldValue(f, v)
    requires f != TimestampField ==> rest == [] || !GroupChar(f, rest[0])
    ensures Capture(f, v + rest) == v
  {
    if f == TimestampField {
      assert (v + rest)[..19] == v;
    } else {
      RunValue(f, v, rest);
    }
  }

  /** A line made of a comment opening without underscores, a tag, a valid
      value and something the class excludes yields that value. */
  lemma SearchRenderedLine(opening: string, f: Field, v: string, rest: string)
    requires '_' !in opening
    requires IsFieldValue(f, v)
    requires f != TimestampField ==> rest == [] || !GroupChar(f, rest[0])
    ensures Search(opening + FieldTag(f) + v + rest, f) == Some(v)
  {
    var tag := FieldTag(f);
    var text := opening + tag + v + rest;
    var n := |opening|;
    DropFirst(opening + tag, v, rest);
    CaptureValue(f, v, rest);
    assert FirstMatchAt(text, f, n) by {
      assert text[n..n + |tag|] == tag;
      assert text[..n] == opening;
      NoMatchBefore(text, f, n);
    }
    SearchFindsFirst(text, f, n);
  }

  /** Every tag starts with an underscore, so no match starts in a prefix without one. */
  lemma NoMatchBefore(text: string, f: Field, n: int)
    requires 0 <= n <= |text| && '_' !in text[..n]
    ensures forall j | 0 <= j < n :: !MatchesAt(text, f, j)
  {
    var tag := FieldTag(f);
    forall j | 0 <= j < n ensures !OccursAt(text, tag, j) {
      assert text[j] == text[..n][j];
      if j + |tag| <= |text| {
        assert text[j..j + |tag|][0] == text[j];
      }
    }
  }

  /** A match after a tag-free line is a match in the text after its line break. */
  lemma MatchAfterLine(a: string, b: string, f: Field, j: int)
    requires !Contains(a, FieldTag(f))
    ensures MatchesAt(a + "\n" + b, f, j) ==> j > |a| && MatchesAt(b, f, j - |a| - 1)
  {
    var tag := FieldTag(f);
    var t := a + "\n" + b;
    if MatchesAt(t, f, j) {
      assert !OccursAt(a, tag, j);
      OccursAcrossNewline(a, b, tag, j);
      DropAfterNewline(a, b, j + |tag|);
    }
  }

  /** A match in the text after a line break is a match in the whole text. */
  lemma MatchShifted(a: string, b: string, f: Field, k: int)
    requires MatchesAt(b, f, k)
    ensures MatchesAt(a + "\n" + b, f, k + |a| + 1)
    ensures (a + "\n" + b)[k + |a| + 1 + |FieldTag(f)|..] == b[k + |FieldTag(f)|..]
  {
    OccursAfterNewline(a, b, FieldTag(f), k);
  }

  /** The leftmost match after a tag-free line is the leftmost match after its break, shifted. */
  lemma FirstMatchShifted(a: string, b: string, f: Field, k: int)
    requires !Contains(a, FieldTag(f))
    requires FirstMatchAt(b, f, k)
    ensures FirstMatchAt(a + "\n" + b, f, k + |a| + 1)
    ensures (a + "\n" + b)[k + |a| + 1 + |FieldTag(f)|..] == b[k + |FieldTag(f)|..]
  {
    MatchShifted(a, b, f, k);
    forall j | 0 <= j < k + |a| + 1 ensures !MatchesAt(a + "\n" + b, f, j) {
      MatchAfterLine(a, b, f, j);
    }
  }

  lemma SearchSkipsLineAt(a: string, b: string, f: Field, k: int)
    requires !Contains(a, FieldTag(f))
    requires FirstMatchAt(b, f, k)
    ensures Search(a + "\n" + b, f) == Search(b, f)
  {
    var t, i, n := a + "\n" + b, k + |a| + 1, |FieldTag(f)|;
    assert FirstMatch(t, f, 0) == Some(i) by {
      FirstMatchShifted(a, b, f, k);
      FirstMatchFinds(t, f, 0, i);
    }
    assert FirstMatch(b, f, 0) == Some(k) by {
      FirstMatchFinds(b, f, 0, k);
    }
    assert t[i + n..] == b[k + n..] by {
      DropAfterNewline(a, b, i + n);
    }
    SearchSameCapture(t, b, f, i, k);
  }

  /** Two searches agree when both stop where the same remainder follows the tag. */
  lemma SearchSameCapture(t: string, b: string, f: Field, i: nat, k: nat)
    requires FirstMatch(t, f, 0) == Some(i) && FirstMatch(b, f, 0) == Some(k)
    requires t[i + |FieldTag(f)|..] == b[k + |FieldTag(f)|..]
    ensures Search(t, f) == Search(b, f)
  {
    SearchAt(t, f, i);
    SearchAt(b, f, k);
  }

  /** Where the scan stops, the search captures what follows the tag. */
  lemma SearchAt(t: string, f: Field, i: nat)
    requires FirstMatch(t, f, 0) == Some(i)
    ensures i + |FieldTag(f)| <= |t|
    ensures Search(t, f) == Some(Capture(f, t[i + |FieldTag(f)|..]))
  {
  }

  /** A line without the tag is skipped: the search goes on after its line break. */
  lemma SearchSkipsLine(a: string, b: string, f: Field)
    requires !Contains(a, FieldTag(f))
    ensures Search(a + "\n" + b, f) == Search(b, f)
  {
    var t := a + "\n" + b;
    match FirstMatch(b, f, 0)
    case Some(k) =>
      FirstMatchIsFirst(b, f);
      SearchSkipsLineAt(a, b, f, k);
    case None =>
      forall j ensures !MatchesAt(t, f, j) {
        MatchAfterLine(a, b, f, j);
        if j > |a| {
          FirstMatchLeftmost(b, f, 0, j - |a| - 1);
        }
      }
      SearchFound(t, f);
  }
}
