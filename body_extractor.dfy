/** `remove_signature_lines`: the body of a file, with every marker line
    dropped, the ends stripped and runs of empty lines collapsed. This body is
    what the signer hashes and what removing a signature writes back. */
module BodyExtractor {
  import opened TextOps
  import opened MarkerCodec

  /** A line the filter drops: it mentions one of the three tags. */
  predicate HasTag(line: string) {
    Contains(line, SignatureTag) || Contains(line, HashTag) || Contains(line, SignedTag)
  }

  /** The lines the `for` loop keeps, in their order. */
  function KeptLines(lines: seq<string>): (r: seq<string>)
    ensures |r| <= |lines|
  {
    if lines == [] then []
    else
      var init, last := lines[..|lines| - 1], lines[|lines| - 1];
      KeptLines(init) + (if HasTag(last) then [] else [last])
  }

  /** The kept lines are exactly the lines without a tag. */
  lemma {:induction false} KeptLinesMembers(lines: seq<string>)
    ensures forall line <- KeptLines(lines) :: line in lines && !HasTag(line)
    ensures forall line <- lines :: !HasTag(line) ==> line in KeptLines(lines)
  {
    if lines != [] {
      var init, last := lines[..|lines| - 1], lines[|lines| - 1];
      KeptLinesMembers(init);
      assert lines == init + [last];
    }
  }

  /** The filter works line by line: filtering two blocks of lines is
      filtering each and putting the results one after the other, so the kept
      lines stay in their original order. */
  lemma {:induction false} KeptLinesAppend(x: seq<string>, y: seq<string>)
    ensures KeptLines(x + y) == KeptLines(x) + KeptLines(y)
    decreases |y|
  {
    if y == [] {
      assert x + y == x;
    } else {
      var y' := y[..|y| - 1];
      assert (x + y)[..|x + y| - 1] == x + y';
      KeptLinesAppend(x, y');
    }
  }

  /** The `while` loop: repeat `replace('\n\n\n', '\n\n')` while a run of
      three line breaks remains. No line is changed, dropped or reordered, and
      a stripped text stays stripped. */
  function CollapseBlankRuns(s: string): (r: string)
    ensures !Contains(r, TripleNewline)
    ensures NonEmptyLines(r) == NonEmptyLines(s)
    ensures Trimmed(s) ==> Trimmed(r)
    decreases |s|
  {
    if Contains(s, TripleNewline) then
      ReplaceShortens(s);
      ReplaceKeepsLines(s);
      ReplaceKeepsTrimmed(s);
      CollapseBlankRuns(ReplaceTripleNewlines(s))
    else s
  }

  /** What the `while` loop does to the lines of a stripped text: each run
      of empty lines is left as exactly one empty line, and nothing else
      changes. */
  lemma {:induction false} CollapseSquashes(s: string)
    ensures Trimmed(s) ==> Split(CollapseBlankRuns(s)) == SquashEmpty(Split(s))
    decreases |s|
  {
    if Trimmed(s) {
      if Contains(s, TripleNewline) {
        var t := ReplaceTripleNewlines(s);
        ReplaceShortens(s);
        ReplaceKeepsTrimmed(s);
        CollapseSquashes(t);
        ReplaceSquash(s);
      } else {
        TrimmedNoDouble(s);
        SquashNoDouble(Split(s));
      }
    }
  }

  /** Tag-free text: no line of it would be dropped by the filter. */
  predicate NoTag(s: string) {
    !HasTag(s)
  }

  /** A text the stripping leaves alone. */
  predicate Stripped(s: string) {
    NoTag(s) && Trimmed(s) && !Contains(s, TripleNewline)
  }

  /** A text is tag-free exactly when each of its lines is. */
  lemma NoTagByLines(s: string)
    ensures NoTag(s) <==> forall line <- Split(s) :: !HasTag(line)
  {
    JoinSplit(s);
    ContainsJoin(Split(s), SignatureTag);
    ContainsJoin(Split(s), HashTag);
    ContainsJoin(Split(s), SignedTag);
  }

  /** Tag-freeness survives taking a slice. */
  lemma NoTagSlice(s: string, lo: int, hi: int)
    requires 0 <= lo <= hi <= |s|
    requires NoTag(s)
    ensures NoTag(s[lo..hi])
  {
    if Contains(s[lo..hi], SignatureTag) { ContainsInSlice(s, lo, hi, SignatureTag); }
    if Contains(s[lo..hi], HashTag) { ContainsInSlice(s, lo, hi, HashTag); }
    if Contains(s[lo..hi], SignedTag) { ContainsInSlice(s, lo, hi, SignedTag); }
  }

  /** Tag-freeness depends only on the non-empty lines. */
  lemma NoTagSameLines(s: string, t: string)
    requires NonEmptyLines(s) == NonEmptyLines(t)
    ensures NoTag(s) <==> NoTag(t)
  {
    ContainsByLines(s, SignatureTag);
    ContainsByLines(t, SignatureTag);
    ContainsByLines(s, HashTag);
    ContainsByLines(t, HashTag);
    ContainsByLines(s, SignedTag);
    ContainsByLines(t, SignedTag);
  }

  /** The filtered lines, joined and stripped: what the `while` loop starts from. */
  function FilteredText(content: string): (r: string)
    ensures NoTag(r) && Trimmed(r)
  {
    var joined := Join(KeptLines(Split(content)));
    KeptJoinedNoTag(Split(content));
    NoTagTrim(joined);
    Trim(joined)
  }

  /** Joining the kept lines gives a tag-free text. */
  lemma KeptJoinedNoTag(lines: seq<string>)
    ensures NoTag(Join(KeptLines(lines)))
  {
    var kept := KeptLines(lines);
    KeptLinesMembers(lines);
    ContainsJoin(kept, SignatureTag);
    ContainsJoin(kept, HashTag);
    ContainsJoin(kept, SignedTag);
  }

  /** Stripping the ends of a tag-free text keeps it tag-free. */
  lemma NoTagTrim(s: string)
    requires NoTag(s)
    ensures NoTag(Trim(s))
  {
    NoTagSlice(s, Leading(s), Leading(s) + |Trim(s)|);
  }

  /** `remove_signature_lines(content)` as a value: the result has no tag,
      no whitespace at either end and no run of three line breaks, and its
      non-empty lines are those of the filtered, stripped text, unchanged and
      in order. */
  function Strip(content: string): (r: string)
    ensures Stripped(r)
    ensures forall line <- Split(r) :: !HasTag(line)
    ensures NonEmptyLines(r) == NonEmptyLines(FilteredText(content))
  {
    var f := FilteredText(content);
    var r := CollapseBlankRuns(f);
    NoTagSameLines(f, r);
    NoTagByLines(r);
    r
  }

  /** Stripping keeps the lines of the input that the filter keeps: when the
      kept lines have no whitespace at the two ends of the block they form,
      the result is exactly those lines, unchanged and in order, with each
      run of empty lines reduced to one empty line. Otherwise `strip()` also
      removes all whitespace before the block's first non-whitespace
      character and after its last, which can take whole lines at either end. */
  lemma StripLines(content: string)
    ensures var kept := KeptLines(Split(content));
      Trimmed(Join(kept)) ==> NonEmptyLines(Strip(content)) == NonEmpty(kept)
    ensures var kept := KeptLines(Split(content));
      kept != [] && Trimmed(Join(kept)) ==> Split(Strip(content)) == SquashEmpty(kept)
  {
    var kept := KeptLines(Split(content));
    var joined := Join(kept);
    if Trimmed(joined) {
      TrimFixedPoint(joined);
      assert FilteredText(content) == joined;
      CollapseSquashes(joined);
      if kept == [] {
        assert Split(joined) == [""];
      } else {
        KeptLinesMembers(Split(content));
        SplitJoin(kept);
      }
    }
  }

  /** The text the stripping leaves unchanged are exactly the stripped ones. */
  lemma StrippedFixed(s: string)
    ensures Strip(s) == s <==> Stripped(s)
  {
    if Stripped(s) {
      NoTagByLines(s);
      JoinSplit(s);
      var lines := Split(s);
      assert KeptLines(lines) == lines by {
        KeptAll(lines);
      }
      TrimFixedPoint(s);
    }
  }

  lemma {:induction false} KeptAll(lines: seq<string>)
    requires forall line <- lines :: !HasTag(line)
    ensures KeptLines(lines) == lines
  {
    if lines != [] {
      var init, last := lines[..|lines| - 1], lines[|lines| - 1];
      assert !HasTag(last);
      assert forall line <- init :: !HasTag(line) by {
        assert forall line <- init :: line in lines;
      }
      KeptAll(init);
      assert lines == init + [last];
    }
  }

  /** Stripping twice is stripping once. */
  lemma StripIdempotent(content: string)
    ensures Strip(Strip(content)) == Strip(content)
  {
    StrippedFixed(Strip(content));
  }

  /** The text a signing appends splits into an empty line, the three marker
      lines and the empty piece after the final line break. */
  lemma SplitSigned(body: string, l1: string, l2: string, l3: string)
    requires '\n' !in l1 && '\n' !in l2 && '\n' !in l3
    ensures Split(body + "\n\n" + l1 + "\n" + l2 + "\n" + l3 + "\n")
         == Split(body) + ["", l1, l2, l3, ""]
  {
    var t := body + "\n\n" + l1 + "\n" + l2 + "\n" + l3 + "\n";
    var u3 := l3 + "\n" + "";
    var u2 := l2 + "\n" + u3;
    var u1 := l1 + "\n" + u2;
    var u0 := "" + "\n" + u1;
    assert Split(u3) == [l3, ""] by {
      SplitSingle(l3);
      SplitSingle("");
      SplitAppend(l3, "");
    }
    assert Split(u2) == [l2, l3, ""] by {
      SplitSingle(l2);
      SplitAppend(l2, u3);
    }
    assert Split(u1) == [l1, l2, l3, ""] by {
      SplitSingle(l1);
      SplitAppend(l1, u2);
    }
    assert Split(u0) == ["", l1, l2, l3, ""] by {
      SplitSingle("");
      SplitAppend("", u1);
    }
    assert Split(t) == Split(body) + Split(u0) by {
      SplitAppend(body, u0);
      AppendedNested(body, l1, l2, l3);
    }
  }

  /** The appended block, regrouped around its first line break. */
  lemma AppendedNested(body: string, l1: string, l2: string, l3: string)
    ensures body + "\n\n" + l1 + "\n" + l2 + "\n" + l3 + "\n"
         == body + "\n" + ("" + "\n" + (l1 + "\n" + (l2 + "\n" + (l3 + "\n" + ""))))
  {
    var nl: string := "\n";
    assert "\n\n" == nl + nl;
    assert "" + nl + (l1 + nl + (l2 + nl + (l3 + nl + ""))) == nl + l1 + nl + l2 + nl + l3 + nl;
  }

  lemma KeptMarkers(l1: string, l2: string, l3: string)
    requires HasTag(l1) && HasTag(l2) && HasTag(l3)
    ensures KeptLines(["", l1, l2, l3, ""]) == ["", ""]
  {
    var tail := ["", l1, l2, l3, ""];
    assert tail[..4] == ["", l1, l2, l3];
    assert tail[..4][..3] == ["", l1, l2];
    assert tail[..4][..3][..2] == ["", l1];
    assert tail[..4][..3][..2][..1] == [""];
    assert KeptLines([""]) == [""];
    assert KeptLines(["", l1]) == [""];
    assert KeptLines(["", l1, l2]) == [""];
    assert KeptLines(["", l1, l2, l3]) == [""];
  }

  /** The two empty lines left of the marker block vanish in `strip()`. */
  lemma TrimBlankTail(x: seq<string>)
    ensures Trim(Join(x + ["", ""])) == Trim(Join(x))
  {
    assert Join(["", ""]) == "\n";
    if x == [] {
      assert x + ["", ""] == ["", ""];
      assert AllWhitespace("\n");
      TrimAppendWhitespace("", "\n");
      assert "" + "\n" == "\n";
    } else {
      JoinAppend(x, ["", ""]);
      assert AllWhitespace("\n\n");
      TrimAppendWhitespace(Join(x), "\n\n");
      assert Join(x) + "\n" + "\n" == Join(x) + "\n\n";
    }
  }

  /** Three tagged lines appended after an empty line, each ending in a line
      break, are dropped again: the body they were appended to strips to what
      it stripped to before. */
  lemma MarkersStripped(body: string, l1: string, l2: string, l3: string)
    requires HasTag(l1) && HasTag(l2) && HasTag(l3)
    requires '\n' !in l1 && '\n' !in l2 && '\n' !in l3
    ensures Strip(body + "\n\n" + l1 + "\n" + l2 + "\n" + l3 + "\n") == Strip(body)
  {
    var t := body + "\n\n" + l1 + "\n" + l2 + "\n" + l3 + "\n";
    SplitSigned(body, l1, l2, l3);
    KeptMarkers(l1, l2, l3);
    KeptLinesAppend(Split(body), ["", l1, l2, l3, ""]);
    TrimBlankTail(KeptLines(Split(body)));
    assert FilteredText(t) == FilteredText(body);
  }

  /** The imperative `remove_signature_lines`: split, filter with a `for`
      loop, join and strip, then collapse with a `while` loop. */
  method RemoveSignatureLines(content: string) returns (result: string)
    ensures result == Strip(content)
  {
    var lines := Split(content);
    var filtered: seq<string> := [];
    for i := 0 to |lines|
      invariant filtered == KeptLines(lines[..i])
    {
      var line := lines[i];
      assert lines[..i + 1][..i] == lines[..i];
      if !Contains(line, SignatureTag) && !Contains(line, HashTag) && !Contains(line, SignedTag) {
        filtered := filtered + [line];
      }
    }
    assert lines[..|lines|] == lines;
    result := Trim(Join(filtered));
    while Contains(result, TripleNewline)
      invariant CollapseBlankRuns(result) == Strip(content)
      decreases |result|
    {
      ReplaceShortens(result);
      result := ReplaceTripleNewlines(result);
    }
  }
}
