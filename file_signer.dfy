/** Signing, verifying and un-signing a text file. Signing appends three
    comment lines (identifier, SHA-256 of the body, timestamp) after the
    stripped body; verifying parses them back and recomputes the hash;
    removing writes the stripped body back. The digest function, the fresh
    identifier and the clock reading are parameters. */
module FileSigner {
  import opened TextOps
  import opened MarkerCodec
  import opened BodyExtractor

  /** `final_content` in `add_signature`: the body, an empty line, the three
      marker lines and a final line break. */
  function SignedText(clean: string, lines: MarkerLines): (r: string)
    ensures clean + "\n\n" <= r
    ensures r != [] && r[|r| - 1] == '\n'
  {
    clean + "\n\n" + lines.signature + "\n" + lines.hash + "\n" + lines.time + "\n"
  }

  /** What `add_signature` writes for a file holding `raw` with extension
      `ext`, given the fresh identifier, the clock reading and the digest. */
  function SignContent(raw: string, ext: string, uniqueId: string, timestamp: string,
                       hash: string -> string): (r: string)
    ensures Strip(raw) + "\n\n" <= r
  {
    var clean := Strip(raw);
    SignedText(clean, CommentLines(ext, uniqueId, hash(clean), timestamp))
  }

  /** A lower-case hex digest, as `hexdigest()` returns one. */
  predicate IsDigest(s: string) {
    IsFieldValue(HashField, s)
  }

  /** A value `uuid4()` can print as: lower-case hex digits and dashes. */
  predicate IsIdentifier(s: string) {
    IsFieldValue(SignatureField, s)
  }

  // ---------------------------------------------------------------------------
  // Round trip through the stripping
  // ---------------------------------------------------------------------------

  /** Stripping a signed text gives back the body that was hashed, as long as
      the three values fit on one line. */
  lemma SignedBodyRestored(raw: string, ext: string, uniqueId: string, timestamp: string,
                           hash: string -> string)
    requires '\n' !in uniqueId && '\n' !in timestamp && '\n' !in hash(Strip(raw))
    ensures Strip(SignContent(raw, ext, uniqueId, timestamp, hash)) == Strip(raw)
  {
    var clean := Strip(raw);
    var lines := CommentLines(ext, uniqueId, hash(clean), timestamp);
    TagsPresent(ext, uniqueId, hash(clean), timestamp);
    LinesAreSingle(ext, uniqueId, hash(clean), timestamp);
    MarkersStripped(clean, lines.signature, lines.hash, lines.time);
    StrippedFixed(clean);
  }

  /** Signing a signed file replaces its markers instead of stacking a second
      block: the result is what signing the unsigned body gives. */
  lemma ResignReplaces(raw: string, ext1: string, id1: string, time1: string,
                       ext2: string, id2: string, time2: string, hash: string -> string)
    requires '\n' !in id1 && '\n' !in time1 && '\n' !in hash(Strip(raw))
    ensures SignContent(SignContent(raw, ext1, id1, time1, hash), ext2, id2, time2, hash)
         == SignContent(raw, ext2, id2, time2, hash)
  {
    SignedBodyRestored(raw, ext1, id1, time1, hash);
  }

  // ---------------------------------------------------------------------------
  // Reading the markers back
  // ---------------------------------------------------------------------------

  /** A marker line followed by a line break and anything at all reads back
      its value: nothing before the tag has an underscore, and the closing
      token or the line break ends the value. */
  lemma SearchMarkerLine(ext: string, f: Field, v: string, after: string)
    requires IsFieldValue(f, v)
    ensures Search(MarkerLine(ext, f, v) + "\n" + after, f) == Some(v)
  {
    var opening, closing := LineOpening(ext), LineClosing(ext);
    var rest := closing + "\n" + after;
    CommentTokenChars(ext);
    assert '_' !in opening by {
      assert '_' !in " #/-<!*";
    }
    assert rest[0] == ' ' || rest[0] == '\n';
    SearchRenderedLine(opening, f, v, rest);
    MarkerLineRegrouped(ext, f, v, after);
  }

  lemma MarkerLineRegrouped(ext: string, f: Field, v: string, after: string)
    ensures MarkerLine(ext, f, v) + "\n" + after
         == LineOpening(ext) + FieldTag(f) + v + (LineClosing(ext) + "\n" + after)
  {
    var head := LineOpening(ext) + FieldTag(f) + v;
    var closing := LineClosing(ext);
    assert MarkerLine(ext, f, v) == head + closing;
    assert head + closing + "\n" + after == head + (closing + "\n" + after);
  }

  /** A marker line of one field is skipped by the search for a field whose
      tag holds a capital letter the line cannot contain. */
  lemma MarkerLineLacks(ext: string, g: Field, v: string, f: Field, c: char)
    requires c in FieldTag(f) && c !in FieldTag(g) && c !in v
    requires 'A' <= c <= 'Z'
    ensures !Contains(MarkerLine(ext, g, v), FieldTag(f))
  {
    CommentTokenChars(ext);
    assert c !in LineOpening(ext) by {
      assert c !in " #/-<!*";
    }
    assert c !in LineClosing(ext) by {
      assert c !in " ->*/";
    }
    MissingCharNotContained(MarkerLine(ext, g, v), FieldTag(f), c);
  }

  /** A hex value has no capital letter. */
  lemma NoCapitals(f: Field, v: string, c: char)
    requires f != TimestampField && IsFieldValue(f, v)
    requires 'A' <= c <= 'Z'
    ensures c !in v
  {
  }

  /** A field value is a single line. */
  lemma ValueIsSingleLine(f: Field, v: string)
    requires IsFieldValue(f, v)
    ensures '\n' !in v
  {
    if f == TimestampField {
      forall i | 0 <= i < |v| ensures v[i] != '\n' {
        assert TimestampCharAt(i, v[i]);
      }
    }
  }

  lemma ValuesAreSingleLines(uniqueId: string, digest: string, timestamp: string)
    requires IsIdentifier(uniqueId) && IsDigest(digest) && IsTimestamp(timestamp)
    ensures '\n' !in uniqueId && '\n' !in digest && '\n' !in timestamp
  {
    ValueIsSingleLine(SignatureField, uniqueId);
    ValueIsSingleLine(HashField, digest);
    ValueIsSingleLine(TimestampField, timestamp);
  }

  /** A tag-free text holds none of the three tags. */
  lemma NoFieldTag(s: string, f: Field)
    requires NoTag(s)
    ensures !Contains(s, FieldTag(f))
  {
  }

  /** The marker line of field `f` carrying `v`, for extension `ext`. */
  function MarkerLine(ext: string, f: Field, v: string): string {
    LineOpening(ext) + FieldTag(f) + v + LineClosing(ext)
  }

  /** The three marker lines, each ending in a line break. The text is
      grouped as `line + "\n" + rest`, the form the lemmas about a line
      break (`SplitAppend`, `SearchSkipsLine`) take, and the closing `""` is
      the empty piece after the last line break. */
  function MarkerBlock(ext: string, uniqueId: string, digest: string, timestamp: string): string {
    MarkerLine(ext, SignatureField, uniqueId) + "\n" + (MarkerLine(ext, HashField, digest) + "\n"
      + (MarkerLine(ext, TimestampField, timestamp) + "\n" + ""))
  }

  lemma SearchBlockSignature(ext: string, uniqueId: string, digest: string, timestamp: string)
    requires IsIdentifier(uniqueId)
    ensures Search(MarkerBlock(ext, uniqueId, digest, timestamp), SignatureField) == Some(uniqueId)
  {
    var after := MarkerLine(ext, HashField, digest) + "\n" + (MarkerLine(ext, TimestampField, timestamp) + "\n" + "");
    SearchMarkerLine(ext, SignatureField, uniqueId, after);
  }

  lemma SearchBlockHash(ext: string, uniqueId: string, digest: string, timestamp: string)
    requires IsIdentifier(uniqueId) && IsDigest(digest)
    ensures Search(MarkerBlock(ext, uniqueId, digest, timestamp), HashField) == Some(digest)
  {
    var after := MarkerLine(ext, TimestampField, timestamp) + "\n" + "";
    NoCapitals(SignatureField, uniqueId, 'H');
    assert 'H' in FieldTag(HashField) && 'H' !in FieldTag(SignatureField);
    MarkerLineLacks(ext, SignatureField, uniqueId, HashField, 'H');
    SearchSkipsLine(MarkerLine(ext, SignatureField, uniqueId), MarkerLine(ext, HashField, digest) + "\n" + after, HashField);
    SearchMarkerLine(ext, HashField, digest, after);
  }

  lemma SearchBlockTimestamp(ext: string, uniqueId: string, digest: string, timestamp: string)
    requires IsIdentifier(uniqueId) && IsDigest(digest) && IsTimestamp(timestamp)
    ensures Search(MarkerBlock(ext, uniqueId, digest, timestamp), TimestampField) == Some(timestamp)
  {
    var last := MarkerLine(ext, TimestampField, timestamp) + "\n" + "";
    var rest := MarkerLine(ext, HashField, digest) + "\n" + last;
    NoCapitals(SignatureField, uniqueId, 'D');
    NoCapitals(HashField, digest, 'D');
    assert 'D' in FieldTag(TimestampField);
    assert 'D' !in FieldTag(SignatureField) && 'D' !in FieldTag(HashField);
    MarkerLineLacks(ext, SignatureField, uniqueId, TimestampField, 'D');
    MarkerLineLacks(ext, HashField, digest, TimestampField, 'D');
    SearchSkipsLine(MarkerLine(ext, SignatureField, uniqueId), rest, TimestampField);
    SearchSkipsLine(MarkerLine(ext, HashField, digest), last, TimestampField);
    SearchMarkerLine(ext, TimestampField, timestamp, "");
  }

  /** A signed text is its body, a line break, an empty line and the marker
      block. The empty line is written `"" + "\n" + …` so that each line
      break again splits a line from the rest. */
  lemma SignContentShape(raw: string, ext: string, uniqueId: string, timestamp: string,
                         hash: string -> string)
    ensures SignContent(raw, ext, uniqueId, timestamp, hash)
         == Strip(raw) + "\n" + ("" + "\n" + MarkerBlock(ext, uniqueId, hash(Strip(raw)), timestamp))
  {
    var clean := Strip(raw);
    var lines := CommentLines(ext, uniqueId, hash(clean), timestamp);
    CommentLinesUniform(ext, uniqueId, hash(clean), timestamp);
    AppendedNested(clean, lines.signature, lines.hash, lines.time);
  }

  /** After a tag-free body and an empty line, the searches read back exactly
      the values of the marker block. */
  lemma ParseSignedText(clean: string, ext: string, uniqueId: string, digest: string, timestamp: string)
    requires NoTag(clean)
    requires IsIdentifier(uniqueId) && IsDigest(digest) && IsTimestamp(timestamp)
    ensures ExtractSignatureData(clean + "\n" + ("" + "\n" + MarkerBlock(ext, uniqueId, digest, timestamp)))
         == SignatureData(Some(uniqueId), Some(digest), Some(timestamp))
  {
    var block := MarkerBlock(ext, uniqueId, digest, timestamp);
    var text := clean + "\n" + ("" + "\n" + block);
    forall f: Field ensures Search(text, f) == Search(block, f) {
      NoFieldTag(clean, f);
      SearchSkipsLine(clean, "" + "\n" + block, f);
      assert !Contains("", FieldTag(f));
      SearchSkipsLine("", block, f);
    }
    SearchBlockSignature(ext, uniqueId, digest, timestamp);
    SearchBlockHash(ext, uniqueId, digest, timestamp);
    SearchBlockTimestamp(ext, uniqueId, digest, timestamp);
  }

  /** The searches read back exactly the identifier, digest and timestamp a
      signing wrote, whatever the body was. */
  lemma ParseSigned(raw: string, ext: string, uniqueId: string, timestamp: string,
                    hash: string -> string)
    requires IsIdentifier(uniqueId) && IsDigest(hash(Strip(raw))) && IsTimestamp(timestamp)
    ensures ExtractSignatureData(SignContent(raw, ext, uniqueId, timestamp, hash))
         == SignatureData(Some(uniqueId), Some(hash(Strip(raw))), Some(timestamp))
  {
    SignContentShape(raw, ext, uniqueId, timestamp, hash);
    ParseSignedText(Strip(raw), ext, uniqueId, hash(Strip(raw)), timestamp);
  }

  // ---------------------------------------------------------------------------
  // Verifying
  // ---------------------------------------------------------------------------

  /** The outcome of `verify_signature`: `(False, ...)` for an unsigned file,
      `(True, ...)` or `(False, ...)` by the hash comparison otherwise. */
  datatype Verdict = Unsigned | Valid | Tampered

  /** The decision in `verify_signature` on the text of a file. A missing
      identifier or hash means unsigned (`not data['signature']` also rejects
      an empty string, which the searches never return); otherwise the file
      is valid exactly when the digest of its stripped text is the stored
      hash, character for character. */
  function VerifyContent(content: string, hash: string -> string): (v: Verdict)
    ensures v == Unsigned <==>
      Search(content, SignatureField).None? || Search(content, HashField).None?
    ensures v == Valid <==>
      v != Unsigned && Search(content, HashField) == Some(hash(Strip(content)))
  {
    var data := ExtractSignatureData(content);
    if data.signature.None? || data.signature.value == ""
       || data.hash.None? || data.hash.value == "" then
      Unsigned
    else if hash(Strip(content)) == data.hash.value then
      Valid
    else
      Tampered
  }

  /** Verifying a freshly signed file succeeds when the identifier, the
      digest and the timestamp have the shapes `uuid4`, `hexdigest` and
      `strftime` give them. */
  lemma VerifyAfterSign(raw: string, ext: string, uniqueId: string, timestamp: string,
                        hash: string -> string)
    requires IsIdentifier(uniqueId) && IsDigest(hash(Strip(raw))) && IsTimestamp(timestamp)
    ensures VerifyContent(SignContent(raw, ext, uniqueId, timestamp, hash), hash) == Valid
  {
    var text := SignContent(raw, ext, uniqueId, timestamp, hash);
    var digest := hash(Strip(raw));
    ParseSigned(raw, ext, uniqueId, timestamp, hash);
    ValuesAreSingleLines(uniqueId, digest, timestamp);
    SignedBodyRestored(raw, ext, uniqueId, timestamp, hash);
    ValidWhenStoredHashMatches(text, hash);
  }

  /** A text whose stored identifier and hash are present is valid when the
      stored hash is the digest of its stripped text. */
  lemma ValidWhenStoredHashMatches(content: string, hash: string -> string)
    requires ExtractSignatureData(content).signature.Some?
    requires ExtractSignatureData(content).hash == Some(hash(Strip(content)))
    ensures VerifyContent(content, hash) == Valid
  {
  }

  /** A text without the identifier tag or without the hash tag verifies
      as unsigned, never as tampered. */
  lemma UnsignedWithoutTags(content: string, hash: string -> string)
    requires !Contains(content, SignatureTag) || !Contains(content, HashTag)
    ensures VerifyContent(content, hash) == Unsigned
  {
    if !Contains(content, SignatureTag) {
      SearchWithoutTag(content, SignatureField);
    } else {
      SearchWithoutTag(content, HashField);
    }
  }

  /** Removing a signature leaves an unsigned file. */
  lemma RemovedIsUnsigned(content: string, hash: string -> string)
    ensures VerifyContent(Strip(content), hash) == Unsigned
  {
    UnsignedWithoutTags(Strip(content), hash);
  }

  // ---------------------------------------------------------------------------
  // The file
  // ---------------------------------------------------------------------------

  /** The file the signer works on, reduced to its text. Signing and removing
      overwrite it; verifying only reads it. */
  class SignedFile {
    var content: string

    constructor (initial: string)
      ensures content == initial
    {
      content := initial;
    }

    /** `add_signature`: strip, hash, render the markers and overwrite the
        file. Returns the digest of the body. */
    method Sign(ext: string, uniqueId: string, timestamp: string, hash: string -> string)
      returns (fileHash: string)
      modifies this
      ensures fileHash == hash(Strip(old(content)))
      ensures content == SignContent(old(content), ext, uniqueId, timestamp, hash)
      ensures IsIdentifier(uniqueId) && IsDigest(fileHash) && IsTimestamp(timestamp) ==>
                VerifyContent(content, hash) == Valid
    {
      var clean := RemoveSignatureLines(content);
      fileHash := hash(clean);
      var lines := CommentLines(ext, uniqueId, fileHash, timestamp);
      ghost var before := content;
      content := clean + "\n\n" + lines.signature + "\n" + lines.hash + "\n" + lines.time + "\n";
      if IsIdentifier(uniqueId) && IsDigest(fileHash) && IsTimestamp(timestamp) {
        VerifyAfterSign(before, ext, uniqueId, timestamp, hash);
      }
    }

    /** `verify_signature`: reads the file and reports whether it passed. */
    method Verify(hash: string -> string) returns (valid: bool, verdict: Verdict)
      ensures verdict == VerifyContent(content, hash)
      ensures valid <==> verdict == Valid
    {
      var data := ExtractSignatureData(content);
      if data.signature.None? || data.signature.value == ""
         || data.hash.None? || data.hash.value == "" {
        return false, Unsigned;
      }
      var clean := RemoveSignatureLines(content);
      var recalculated := hash(clean);
      valid := recalculated == data.hash.value;
      verdict := if valid then Valid else Tampered;
    }

    /** `FileSigner.remove_signature`: writes the stripped text back. The
        file is then unsigned. */
    method RemoveSignature()
      modifies this
      ensures content == Strip(old(content))
      ensures forall hash: string -> string :: VerifyContent(content, hash) == Unsigned
    {
      content := RemoveSignatureLines(content);
      forall hash: string -> string ensures VerifyContent(content, hash) == Unsigned {
        RemovedIsUnsigned(old(content), hash);
      }
    }
  }
}
