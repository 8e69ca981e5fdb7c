/** The Python `str` operations that the marker scheme is built from, over
    `string` (a sequence of Unicode scalar values):
    `p in s`, `s.split('\n')`, `'\n'.join(lines)`, `s.strip()`, `s.lower()`
    and `s.replace('\n\n\n', '\n\n')`. */
module TextOps {

  // ---------------------------------------------------------------------------
  // Substrings
  // ---------------------------------------------------------------------------

  /** `p` occurs in `s` starting at index `i`. */
  predicate OccursAt(s: string, p: string, i: int) {
    0 <= i && i + |p| <= |s| && s[i..i + |p|] == p
  }

  /** Python's `p in s` for two strings. */
  predicate Contains(s: string, p: string) {
    exists i | 0 <= i <= |s| - |p| :: OccursAt(s, p, i)
  }

  /** An occurrence, character by character. */
  lemma OccursAtChars(s: string, p: string, i: int)
    ensures OccursAt(s, p, i) <==>
      0 <= i && i + |p| <= |s| && forall j :: i <= j < i + |p| ==> s[j] == p[j - i]
  {
    if 0 <= i && i + |p| <= |s| {
      assert forall j :: i <= j < i + |p| ==> s[j] == s[i..i + |p|][j - i];
    }
  }

  /** A pattern with a character the text lacks cannot occur in the text. */
  lemma MissingCharNotContained(s: string, p: string, c: char)
    requires c in p && c !in s
    ensures !Contains(s, p)
  {
    var k :| 0 <= k < |p| && p[k] == c;
    forall i | 0 <= i <= |s| - |p|
      ensures !OccursAt(s, p, i)
    {
      OccursAtChars(s, p, i);
      assert s[i + k] in s;
    }
  }

  /** Every occurrence in a slice is an occurrence in the whole string. */
  lemma ContainsInSlice(s: string, lo: int, hi: int, p: string)
    requires 0 <= lo <= hi <= |s|
    requires Contains(s[lo..hi], p)
    ensures Contains(s, p)
  {
    var i :| 0 <= i <= hi - lo - |p| && OccursAt(s[lo..hi], p, i);
    OccursAtChars(s[lo..hi], p, i);
    OccursAtChars(s, p, lo + i);
    assert OccursAt(s, p, lo + i);
  }

  /** An occurrence of a single-line pattern lies on one side of a line break. */
  lemma OccursAcrossNewline(a: string, b: string, p: string, i: int)
    requires '\n' !in p
    requires OccursAt(a + "\n" + b, p, i)
    ensures OccursAt(a, p, i) || (i > |a| && OccursAt(b, p, i - |a| - 1))
  {
    var t := a + "\n" + b;
    OccursAtChars(t, p, i);
    assert t[|a|] == '\n';
    if i + |p| <= |a| {
      OccursAtChars(a, p, i);
    } else {
      assert i > |a|;
      OccursAtChars(b, p, i - |a| - 1);
    }
  }

  /** An occurrence after a line break is an occurrence in the joined text,
      followed by the same remainder. */
  lemma OccursAfterNewline(a: string, b: string, p: string, k: int)
    requires OccursAt(b, p, k)
    ensures OccursAt(a + "\n" + b, p, k + |a| + 1)
    ensures (a + "\n" + b)[k + |a| + 1 + |p|..] == b[k + |p|..]
  {
    var t := a + "\n" + b;
    var d := |a| + 1;
    assert t[d..] == b;
    assert t[k + d + |p|..] == t[d..][k + |p|..];
    assert t[k + d..k + d + |p|] == t[d..][k..k + |p|];
  }

  /** What follows a position past the line break lies in the second part. */
  lemma DropAfterNewline(a: string, b: string, k: int)
    requires |a| < k <= |a| + 1 + |b|
    ensures (a + "\n" + b)[k..] == b[k - |a| - 1..]
  {
    var t := a + "\n" + b;
    assert t[|a| + 1..] == b;
    assert t[k..] == t[|a| + 1..][k - |a| - 1..];
  }

  /** Dropping the first part of a three-part concatenation. */
  lemma DropFirst(x: string, y: string, z: string)
    ensures (x + y + z)[|x|..] == y + z
  {
    assert x + y + z == x + (y + z);
  }

  lemma ContainsAcrossNewline(a: string, b: string, p: string)
    requires '\n' !in p
    requires Contains(a + "\n" + b, p)
    ensures Contains(a, p) || Contains(b, p)
  {
    var t := a + "\n" + b;
    var i :| 0 <= i <= |t| - |p| && OccursAt(t, p, i);
    OccursAtChars(t, p, i);
    assert t[|a|] == '\n';
    if i + |p| <= |a| {
      OccursAtChars(a, p, i);
      assert OccursAt(a, p, i);
    } else {
      assert i > |a|;
      OccursAtChars(b, p, i - |a| - 1);
      assert OccursAt(b, p, i - |a| - 1);
    }
  }

  lemma ContainsInPrefix(a: string, b: string, p: string)
    requires Contains(a, p)
    ensures Contains(a + b, p)
  {
    ContainsInSlice(a + b, 0, |a|, p);
  }

  lemma ContainsInSuffix(a: string, b: string, p: string)
    requires Contains(b, p)
    ensures Contains(a + b, p)
  {
    assert (a + b)[|a|..|a| + |b|] == b;
    ContainsInSlice(a + b, |a|, |a| + |b|, p);
  }

  /** A one-line pattern occurs around a line break only on one side of it. */
  lemma ContainsAroundNewline(a: string, b: string, p: string)
    requires '\n' !in p
    ensures Contains(a + "\n" + b, p) <==> Contains(a, p) || Contains(b, p)
  {
    if Contains(a + "\n" + b, p) {
      ContainsAcrossNewline(a, b, p);
    }
    if Contains(a, p) {
      ContainsInPrefix(a, "\n" + b, p);
      assert a + "\n" + b == a + ("\n" + b);
    }
    if Contains(b, p) {
      ContainsInSuffix(a + "\n", b, p);
    }
  }

  // ---------------------------------------------------------------------------
  // Lines: str.split('\n') and '\n'.join(...)
  // ---------------------------------------------------------------------------

  /** Python's `'\n'.join(lines)`; the empty list joins to the empty string. */
  function Join(lines: seq<string>): (r: string)
    ensures |lines| >= 1 ==> lines[0] <= r
    ensures |lines| >= 2 ==> lines[0] + "\n" <= r
  {
    if |lines| == 0 then ""
    else if |lines| == 1 then lines[0]
    else lines[0] + "\n" + Join(lines[1..])
  }

  /** Python's `s.split('\n')`: always at least one (possibly empty) piece,
      and no piece holds a line break. */
  function Split(s: string): (lines: seq<string>)
    ensures |lines| >= 1
    ensures forall line <- lines :: '\n' !in line
  {
    if s == [] then [""]
    else
      var rest := Split(s[1..]);
      if s[0] == '\n' then
        [""] + rest
      else
        var r := [[s[0]] + rest[0]] + rest[1..];
        assert r[1..] == rest[1..];
        r
  }

  /** Joining the pieces gives the text back. */
  lemma {:induction false} JoinSplit(s: string)
    ensures Join(Split(s)) == s
  {
    if s != [] {
      var rest := Split(s[1..]);
      JoinSplit(s[1..]);
      if s[0] == '\n' {
        assert Split(s) == [""] + rest;
        assert Join(Split(s)) == "" + "\n" + Join(rest);
      } else {
        var r := [[s[0]] + rest[0]] + rest[1..];
        assert Split(s) == r;
        if |rest| == 1 {
          assert Join(r) == [s[0]] + rest[0];
        } else {
          assert r[1..] == rest[1..];
          assert Join(rest) == rest[0] + "\n" + Join(rest[1..]);
          assert Join(r) == [s[0]] + rest[0] + "\n" + Join(rest[1..]);
        }
      }
    }
  }

  /** A string without line breaks is a single line. */
  lemma {:induction false} SplitSingle(s: string)
    requires '\n' !in s
    ensures Split(s) == [s]
  {
    if s != [] {
      assert s[0] != '\n' by { assert s[0] in s; }
      assert '\n' !in s[1..] by {
        forall c | c in s[1..] ensures c != '\n' { assert c in s; }
      }
      SplitSingle(s[1..]);
      assert [s[0]] + s[1..] == s;
    }
  }

  /** Splitting distributes over a line break. */
  lemma {:induction false} SplitAppend(a: string, b: string)
    ensures Split(a + "\n" + b) == Split(a) + Split(b)
  {
    var t := a + "\n" + b;
    if a == [] {
      assert t == "\n" + b;
      assert t[1..] == b;
    } else {
      assert t[0] == a[0];
      assert t[1..] == a[1..] + "\n" + b;
      SplitAppend(a[1..], b);
      SplitCons(a, t, b);
    }
  }

  /** One step of `SplitAppend`: the first character joins the first line or
      starts a new one in both texts alike. */
  lemma SplitCons(a: string, t: string, b: string)
    requires a != [] && t != [] && t[0] == a[0]
    requires Split(t[1..]) == Split(a[1..]) + Split(b)
    ensures Split(t) == Split(a) + Split(b)
  {
    if a[0] == '\n' {
      SplitConsBreak(a, t, Split(a[1..]), Split(b));
    } else {
      SplitConsChar(a, t, Split(a[1..]), Split(b));
    }
  }

  lemma SplitConsBreak(a: string, t: string, ra: seq<string>, rb: seq<string>)
    requires a != [] && t != [] && t[0] == a[0] == '\n'
    requires Split(a[1..]) == ra && Split(t[1..]) == ra + rb
    ensures Split(t) == Split(a) + rb
  {
    SplitAtBreak(t);
    SplitAtBreak(a);
    ConsAppend("", ra, rb);
  }

  lemma ConsAppend(x: string, l: seq<string>, m: seq<string>)
    ensures [x] + (l + m) == [x] + l + m
  {
  }

  /** A text starting with a line break starts with an empty line. */
  lemma SplitAtBreak(u: string)
    requires u != [] && u[0] == '\n'
    ensures Split(u) == [""] + Split(u[1..])
  {
  }

  lemma SplitConsChar(a: string, t: string, ra: seq<string>, rb: seq<string>)
    requires a != [] && t != [] && t[0] == a[0] != '\n'
    requires ra != [] && Split(a[1..]) == ra && Split(t[1..]) == ra + rb
    ensures Split(t) == Split(a) + rb
  {
    assert Split(t) == [[a[0]] + (ra + rb)[0]] + (ra + rb)[1..];
    assert Split(a) == [[a[0]] + ra[0]] + ra[1..];
    ExtendFirstLine([a[0]], ra, rb);
  }

  /** Prefixing the first line of a list of lines commutes with appending more lines. */
  lemma ExtendFirstLine(c: string, x: seq<string>, y: seq<string>)
    requires |x| >= 1
    ensures [c + (x + y)[0]] + (x + y)[1..] == [c + x[0]] + x[1..] + y
  {
    assert (x + y)[0] == x[0];
    assert (x + y)[1..] == x[1..] + y;
  }

  /** Joining two non-empty lists of lines puts one line break between them. */
  lemma {:induction false} JoinAppend(x: seq<string>, y: seq<string>)
    requires |x| >= 1 && |y| >= 1
    ensures Join(x + y) == Join(x) + "\n" + Join(y)
  {
    if |x| > 1 {
      assert (x + y)[1..] == x[1..] + y;
      JoinAppend(x[1..], y);
    } else {
      assert (x + y)[1..] == y;
    }
  }

  /** Splitting undoes joining, as long as no line holds a line break. */
  lemma {:induction false} SplitJoin(lines: seq<string>)
    requires |lines| >= 1
    requires forall line <- lines :: '\n' !in line
    ensures Split(Join(lines)) == lines
  {
    SplitSingle(lines[0]);
    if |lines| > 1 {
      SplitJoin(lines[1..]);
      SplitAppend(lines[0], Join(lines[1..]));
      assert lines == [lines[0]] + lines[1..];
    }
  }

  /** A one-line pattern occurs in joined text exactly when it occurs in one of the lines. */
  lemma {:induction false} ContainsJoin(lines: seq<string>, p: string)
    requires p != [] && '\n' !in p
    ensures Contains(Join(lines), p) <==> exists line <- lines :: Contains(line, p)
  {
    if |lines| > 1 {
      ContainsAroundNewline(lines[0], Join(lines[1..]), p);
      ContainsJoin(lines[1..], p);
      assert lines == [lines[0]] + lines[1..];
    } else if |lines| == 0 {
      assert !OccursAt("", p, 0);
    }
  }

  /** The list without its empty lines, in the same order. */
  function NonEmpty(lines: seq<string>): (r: seq<string>)
    ensures forall line <- r :: line in lines && line != ""
    ensures forall line <- lines :: line != "" ==> line in r
  {
    if lines == [] then []
    else (if lines[0] == "" then [] else [lines[0]]) + NonEmpty(lines[1..])
  }

  lemma {:induction false} NonEmptyAppend(x: seq<string>, y: seq<string>)
    ensures NonEmpty(x + y) == NonEmpty(x) + NonEmpty(y)
  {
    if x != [] {
      assert (x + y)[1..] == x[1..] + y;
      NonEmptyAppend(x[1..], y);
    } else {
      assert x + y == y;
    }
  }

  /** The non-empty lines of `s`, in order: what empty-line collapsing must keep. */
  function NonEmptyLines(s: string): seq<string> {
    NonEmpty(Split(s))
  }

  /** The non-empty lines on both sides of a line break, in order. */
  lemma NonEmptyLinesAppend(a: string, b: string)
    ensures NonEmptyLines(a + "\n" + b) == NonEmptyLines(a) + NonEmptyLines(b)
  {
    SplitAppend(a, b);
    NonEmptyAppend(Split(a), Split(b));
  }

  /** An empty line between two texts leaves their non-empty lines as they were. */
  lemma NonEmptyLinesBlank(a: string, b: string)
    ensures NonEmptyLines(a + "\n\n" + b) == NonEmptyLines(a) + NonEmptyLines(b)
  {
    assert a + "\n\n" + b == a + "\n" + ("" + "\n" + b);
    NonEmptyLinesAppend(a, "" + "\n" + b);
    NonEmptyLinesAppend("", b);
    assert NonEmptyLines("") == [];
  }

  /** Position of the first line break. */
  function IndexOfNewline(s: string): (k: nat)
    requires '\n' in s
    ensures k < |s| && s[k] == '\n' && '\n' !in s[..k]
  {
    if s[0] == '\n' then 0
    else
      var k := IndexOfNewline(s[1..]) + 1;
      assert s[..k] == [s[0]] + s[1..][..k - 1];
      k
  }

  /** A one-line pattern occurs in a text exactly when it occurs in one of its non-empty lines. */
  lemma ContainsByLines(s: string, p: string)
    requires p != [] && '\n' !in p
    ensures Contains(s, p) <==> exists line <- NonEmptyLines(s) :: Contains(line, p)
  {
    JoinSplit(s);
    ContainsJoin(Split(s), p);
    assert !Contains("", p) by { assert !OccursAt("", p, 0); }
  }

  // ---------------------------------------------------------------------------
  // str.strip()
  // ---------------------------------------------------------------------------

  /** The characters Python's `str.isspace()` accepts, which `str.strip()` removes. */
  predicate IsWhitespace(c: char) {
    ('\t' <= c <= '\r') || ('\U{1C}' <= c <= '\U{1F}') || c == ' '
    || c == '\U{85}' || c == '\U{A0}' || c == '\U{1680}'
    || ('\U{2000}' <= c <= '\U{200A}') || c == '\U{2028}' || c == '\U{2029}'
    || c == '\U{202F}' || c == '\U{205F}' || c == '\U{3000}'
  }

  predicate AllWhitespace(s: string) {
    forall i :: 0 <= i < |s| ==> IsWhitespace(s[i])
  }

  /** Neither starts nor ends with whitespace. */
  predicate Trimmed(s: string) {
    s == [] || (!IsWhitespace(s[0]) && !IsWhitespace(s[|s| - 1]))
  }

  /** The first index at or after `i` that does not hold whitespace. */
  function SkipWhitespace(s: string, i: nat): (k: nat)
    requires i <= |s|
    ensures i <= k <= |s|
    ensures forall j | i <= j < k :: IsWhitespace(s[j])
    ensures k < |s| ==> !IsWhitespace(s[k])
    decreases |s| - i
  {
    if i < |s| && IsWhitespace(s[i]) then SkipWhitespace(s, i + 1) else i
  }

  /** The end of `s[lo..hi]` once its trailing whitespace is dropped. */
  function BackWhitespace(s: string, lo: nat, hi: nat): (k: nat)
    requires lo <= hi <= |s|
    ensures lo <= k <= hi
    ensures forall j | k <= j < hi :: IsWhitespace(s[j])
    ensures lo < k ==> !IsWhitespace(s[k - 1])
    decreases hi
  {
    if lo < hi && IsWhitespace(s[hi - 1]) then BackWhitespace(s, lo, hi - 1) else hi
  }

  /** How much leading whitespace `strip()` removes. */
  function Leading(s: string): nat {
    SkipWhitespace(s, 0)
  }

  /** Python's `s.strip()`: the slice of `s` between its leading and its
      trailing whitespace, which neither starts nor ends with whitespace. */
  function Trim(s: string): (r: string)
    ensures Trimmed(r)
    ensures Leading(s) + |r| <= |s| && r == s[Leading(s)..Leading(s) + |r|]
    ensures forall j | 0 <= j < Leading(s) :: IsWhitespace(s[j])
    ensures forall j | Leading(s) + |r| <= j < |s| :: IsWhitespace(s[j])
  {
    var lo := SkipWhitespace(s, 0);
    s[lo..BackWhitespace(s, lo, |s|)]
  }

  /** The skip position is the only index with its two properties. */
  lemma SkipUnique(s: string, i: nat, k: nat)
    requires i <= k <= |s|
    requires forall j | i <= j < k :: IsWhitespace(s[j])
    requires k < |s| ==> !IsWhitespace(s[k])
    ensures SkipWhitespace(s, i) == k
  {
  }

  /** The backward skip position is the only index with its two properties. */
  lemma BackUnique(s: string, lo: nat, hi: nat, k: nat)
    requires lo <= k <= hi <= |s|
    requires forall j | k <= j < hi :: IsWhitespace(s[j])
    requires lo < k ==> !IsWhitespace(s[k - 1])
    ensures BackWhitespace(s, lo, hi) == k
  {
  }

  /** Whitespace appended to a text does not change its `strip()`. */
  lemma TrimAppendWhitespace(s: string, w: string)
    requires AllWhitespace(w)
    ensures Trim(s + w) == Trim(s)
  {
    WhitespaceTail(s, w);
    if SkipWhitespace(s, 0) < |s| {
      TrimAppendAfterText(s, w);
    } else {
      SkipUnique(s + w, 0, |s + w|);
    }
  }

  lemma TrimAppendAfterText(s: string, w: string)
    requires SkipWhitespace(s, 0) < |s|
    requires forall j | |s| <= j < |s + w| :: IsWhitespace((s + w)[j])
    ensures Trim(s + w) == Trim(s)
  {
    var t, lo := s + w, SkipWhitespace(s, 0);
    var hi := BackWhitespace(s, lo, |s|);
    SkipUnique(t, 0, lo);
    BackUnique(t, lo, |t|, hi);
    SliceOfPrefix(s, w, lo, hi);
  }

  lemma SliceOfPrefix(s: string, w: string, lo: int, hi: int)
    requires 0 <= lo <= hi <= |s|
    ensures (s + w)[lo..hi] == s[lo..hi]
  {
  }

  lemma WhitespaceTail(s: string, w: string)
    requires AllWhitespace(w)
    ensures forall j | |s| <= j < |s + w| :: IsWhitespace((s + w)[j])
  {
    assert forall j | |s| <= j < |s + w| :: (s + w)[j] == w[j - |s|];
  }

  /** `strip()` leaves a text alone exactly when it is already trimmed. */
  lemma TrimFixedPoint(s: string)
    ensures Trim(s) == s <==> Trimmed(s)
  {
    if s != [] && Trimmed(s) {
      SkipUnique(s, 0, 0);
      BackUnique(s, 0, |s|, |s|);
      assert s[0..|s|] == s;
    }
  }

  // ---------------------------------------------------------------------------
  // str.lower() on ASCII letters
  // ---------------------------------------------------------------------------

  predicate IsUpperAscii(c: char) {
    'A' <= c <= 'Z'
  }

  function LowerChar(c: char): char {
    if IsUpperAscii(c) then (c as int + 32) as char else c
  }

  /** Python's `s.lower()`, restricted to the ASCII letters. */
  function Lower(s: string): (r: string)
    ensures |r| == |s|
    ensures forall c <- r :: !IsUpperAscii(c)
    ensures forall i | 0 <= i < |s| :: !IsUpperAscii(s[i]) ==> r[i] == s[i]
    ensures forall i | 0 <= i < |s| :: IsUpperAscii(s[i]) ==> r[i] as int == s[i] as int + 32
  {
    seq(|s|, i requires 0 <= i < |s| => LowerChar(s[i]))
  }

  /** Lower-casing twice is lower-casing once. */
  lemma LowerIdempotent(s: string)
    ensures Lower(Lower(s)) == Lower(s)
  {
  }

  // ---------------------------------------------------------------------------
  // str.replace('\n\n\n', '\n\n')
  // ---------------------------------------------------------------------------

  const TripleNewline: string := "\n\n\n"

  /** A text without whitespace at its ends keeps that after the replacement. */
  lemma ReplaceKeepsTrimmed(s: string)
    ensures Trimmed(s) ==> Trimmed(ReplaceTripleNewlines(s))
  {
    if s != [] && Trimmed(s) {
      ReplaceKeepsEnds(s);
    }
  }

  /** Past a position where `p` does not start, `p in s` is a question about the tail. */
  lemma ContainsStep(s: string, p: string)
    requires s != [] && !OccursAt(s, p, 0)
    ensures Contains(s, p) <==> Contains(s[1..], p)
  {
    if Contains(s, p) {
      var i :| 0 <= i <= |s| - |p| && OccursAt(s, p, i);
      assert s[1..][i - 1..i - 1 + |p|] == s[i..i + |p|];
      assert OccursAt(s[1..], p, i - 1);
    }
    if Contains(s[1..], p) {
      var i :| 0 <= i <= |s[1..]| - |p| && OccursAt(s[1..], p, i);
      assert s[i + 1..i + 1 + |p|] == s[1..][i..i + |p|];
      assert OccursAt(s, p, i + 1);
    }
  }

  /** Python's `s.replace('\n\n\n', '\n\n')`: scanning left to right, each
      non-overlapping run of three line breaks becomes two. */
  function ReplaceTripleNewlines(s: string): string {
    if |s| >= 3 && s[..3] == TripleNewline then "\n\n" + ReplaceTripleNewlines(s[3..])
    else if s == [] then []
    else [s[0]] + ReplaceTripleNewlines(s[1..])
  }

  /** With no run of three line breaks, the replacement changes nothing. */
  lemma {:induction false} ReplaceNoRun(s: string)
    ensures !Contains(s, TripleNewline) ==> ReplaceTripleNewlines(s) == s
    decreases |s|
  {
    if |s| >= 3 && s[..3] == TripleNewline {
      assert OccursAt(s, TripleNewline, 0);
    } else if s != [] {
      ContainsStep(s, TripleNewline);
      ReplaceNoRun(s[1..]);
    }
  }

  /** A first and a last character that are not line breaks stay in place. */
  lemma {:induction false} ReplaceKeepsEnds(s: string)
    requires s != [] && s[0] != '\n' && s[|s| - 1] != '\n'
    ensures var r := ReplaceTripleNewlines(s);
      r != [] && r[0] == s[0] && r[|r| - 1] == s[|s| - 1]
  {
    if |s| > 1 {
      assert !(|s| >= 3 && s[..3] == TripleNewline) by {
        if |s| >= 3 { assert s[..3][0] == s[0]; }
      }
      ReplaceKeepsEndsTail(s[1..]);
    }
  }

  lemma {:induction false} ReplaceKeepsEndsTail(s: string)
    requires s != [] && s[|s| - 1] != '\n'
    ensures var r := ReplaceTripleNewlines(s);
      r != [] && r[|r| - 1] == s[|s| - 1]
  {
    if |s| >= 3 && s[..3] == TripleNewline {
      ReplaceKeepsEndsTail(s[3..]);
    } else if |s| > 1 {
      ReplaceKeepsEndsTail(s[1..]);
    }
  }

  /** The replacement never lengthens the text, and shortens it exactly when
      there is a run to replace. */
  lemma {:induction false} ReplaceShortens(s: string)
    ensures |ReplaceTripleNewlines(s)| <= |s|
    ensures |ReplaceTripleNewlines(s)| < |s| <==> Contains(s, TripleNewline)
  {
    if |s| >= 3 && s[..3] == TripleNewline {
      assert OccursAt(s, TripleNewline, 0);
      ReplaceShortens(s[3..]);
    } else if s == [] {
      assert !OccursAt(s, TripleNewline, 0);
    } else {
      ContainsStep(s, TripleNewline);
      ReplaceShortens(s[1..]);
    }
  }

  /** Text before the first line break passes through the replacement unchanged. */
  lemma {:induction false} ReplacePrefix(a: string, x: string)
    requires '\n' !in a
    ensures ReplaceTripleNewlines(a + x) == a + ReplaceTripleNewlines(x)
  {
    if a != [] {
      assert (a + x)[1..] == a[1..] + x;
      assert (a + x)[0] == a[0];
      ReplacePrefix(a[1..], x);
      assert a == [a[0]] + a[1..];
    } else {
      assert a + x == x;
    }
  }

  /** How the replacement treats the text from a line break on. */
  lemma ReplaceAtNewline(b: string)
    ensures |b| >= 2 && b[..2] == "\n\n" ==>
      ReplaceTripleNewlines("\n" + b) == "\n\n" + ReplaceTripleNewlines(b[2..])
    ensures !(|b| >= 2 && b[..2] == "\n\n") ==>
      ReplaceTripleNewlines("\n" + b) == "\n" + ReplaceTripleNewlines(b)
  {
    if |b| >= 2 && b[..2] == "\n\n" {
      ReplaceAtRun(b);
    } else {
      ReplaceAtSingle(b);
    }
  }

  lemma ReplaceAtRun(b: string)
    requires |b| >= 2 && b[..2] == "\n\n"
    ensures ReplaceTripleNewlines("\n" + b) == "\n\n" + ReplaceTripleNewlines(b[2..])
  {
    TwoNewlines(b);
    TripleAtBreak(b);
  }

  lemma TwoNewlines(b: string)
    requires |b| >= 2 && b[..2] == "\n\n"
    ensures b[0] == '\n' && b[1] == '\n'
  {
    assert b[..2][0] == b[0] && b[..2][1] == b[1];
  }

  lemma TripleAtBreak(b: string)
    requires |b| >= 2 && b[0] == '\n' && b[1] == '\n'
    ensures ("\n" + b)[..3] == TripleNewline && ("\n" + b)[3..] == b[2..]
  {
    var t := "\n" + b;
    assert t[..3] == [t[0], t[1], t[2]];
  }

  lemma ReplaceAtSingle(b: string)
    requires !(|b| >= 2 && b[..2] == "\n\n")
    ensures ReplaceTripleNewlines("\n" + b) == "\n" + ReplaceTripleNewlines(b)
  {
    BreakNotRun(b);
    ReplaceStep("\n" + b);
  }

  /** A line break followed by text that does not start with two line breaks. */
  lemma BreakNotRun(b: string)
    requires !(|b| >= 2 && b[..2] == "\n\n")
    ensures var t := "\n" + b;
      !(|t| >= 3 && t[..3] == TripleNewline) && t[1..] == b && [t[0]] == "\n"
  {
    var t := "\n" + b;
    if |t| >= 3 {
      assert t[..3][1..] == b[..2];
    }
  }

  /** Where no run starts, the first character is copied. */
  lemma ReplaceStep(t: string)
    requires t != [] && !(|t| >= 3 && t[..3] == TripleNewline)
    ensures ReplaceTripleNewlines(t) == [t[0]] + ReplaceTripleNewlines(t[1..])
  {
  }

  /** The first line passes through; the rest is replaced from its line break on. */
  lemma ReplaceFromBreak(a: string, b: string)
    requires '\n' !in a
    ensures ReplaceTripleNewlines(a + "\n" + b) == a + ReplaceTripleNewlines("\n" + b)
  {
    assert a + "\n" + b == a + ("\n" + b);
    ReplacePrefix(a, "\n" + b);
  }

  lemma ReplaceKeepsLinesAtRun(a: string, rest: string)
    requires '\n' !in a
    requires NonEmptyLines(ReplaceTripleNewlines(rest)) == NonEmptyLines(rest)
    ensures NonEmptyLines(ReplaceTripleNewlines(a + "\n" + ("\n\n" + rest)))
         == NonEmptyLines(a + "\n" + ("\n\n" + rest))
  {
    var b := "\n\n" + rest;
    var r := ReplaceTripleNewlines(rest);
    assert b[..2] == "\n\n" && b[2..] == rest;
    ReplaceFromBreak(a, b);
    ReplaceAtNewline(b);
    assert ReplaceTripleNewlines(a + "\n" + b) == a + ("\n\n" + r);
    assert a + ("\n\n" + r) == a + "\n\n" + r;
    NonEmptyLinesBlank(a, r);
    assert NonEmptyLines(a + "\n\n" + r) == NonEmptyLines(a) + NonEmptyLines(r);
    NonEmptyLinesBlank("", rest);
    assert "" + "\n\n" + rest == b;
    assert NonEmptyLines(b) == NonEmptyLines(rest);
    NonEmptyLinesAppend(a, b);
    assert NonEmptyLines(a + "\n" + b) == NonEmptyLines(a) + NonEmptyLines(b);
  }

  lemma ReplaceKeepsLinesAtBreak(a: string, b: string)
    requires '\n' !in a
    requires !(|b| >= 2 && b[..2] == "\n\n")
    requires NonEmptyLines(ReplaceTripleNewlines(b)) == NonEmptyLines(b)
    ensures NonEmptyLines(ReplaceTripleNewlines(a + "\n" + b)) == NonEmptyLines(a + "\n" + b)
  {
    var r := ReplaceTripleNewlines(b);
    ReplaceFromBreak(a, b);
    ReplaceAtNewline(b);
    assert ReplaceTripleNewlines(a + "\n" + b) == a + ("\n" + r);
    assert a + ("\n" + r) == a + "\n" + r;
    NonEmptyLinesAppend(a, r);
    assert NonEmptyLines(a + "\n" + r) == NonEmptyLines(a) + NonEmptyLines(r);
    NonEmptyLinesAppend(a, b);
    assert NonEmptyLines(a + "\n" + b) == NonEmptyLines(a) + NonEmptyLines(b);
  }

  /** The replacement removes only empty lines: the non-empty lines stay, in order. */
  lemma {:induction false} ReplaceKeepsLines(s: string)
    ensures NonEmptyLines(ReplaceTripleNewlines(s)) == NonEmptyLines(s)
    decreases |s|
  {
    if '\n' !in s {
      ReplacePrefix(s, "");
      assert s + "" == s;
    } else {
      var k := IndexOfNewline(s);
      var a, b := s[..k], s[k + 1..];
      assert s == a + "\n" + b;
      if |b| >= 2 && b[..2] == "\n\n" {
        ReplaceKeepsLines(b[2..]);
        assert b == "\n\n" + b[2..];
        ReplaceKeepsLinesAtRun(a, b[2..]);
      } else {
        ReplaceKeepsLines(b);
        ReplaceKeepsLinesAtBreak(a, b);
      }
    }
  }

  // ---------------------------------------------------------------------------
  // Runs of empty lines
  // ---------------------------------------------------------------------------

  /** The lines with each run of consecutive empty lines cut down to a single
      empty line: an empty line is dropped when the next line is empty too. */
  function SquashEmpty(lines: seq<string>): (r: seq<string>)
    ensures |r| <= |lines|
    ensures lines != [] ==> r != [] && r[0] == lines[0]
  {
    if |lines| <= 1 then lines
    else if lines[0] == "" && lines[1] == "" then SquashEmpty(lines[1..])
    else [lines[0]] + SquashEmpty(lines[1..])
  }

  /** No two adjacent lines are both empty. */
  predicate NoDoubleEmpty(lines: seq<string>) {
    forall i | 0 <= i < |lines| - 1 :: lines[i] != "" || lines[i + 1] != ""
  }

  /** Lines without two adjacent empty ones are left as they are. */
  lemma {:induction false} SquashNoDouble(lines: seq<string>)
    requires NoDoubleEmpty(lines)
    ensures SquashEmpty(lines) == lines
  {
    if |lines| > 1 {
      var tail := lines[1..];
      assert lines[0] != "" || lines[1] != "";
      assert NoDoubleEmpty(tail) by {
        forall i | 0 <= i < |tail| - 1 ensures tail[i] != "" || tail[i + 1] != "" {
          assert tail[i] == lines[i + 1] && tail[i + 1] == lines[i + 2];
        }
      }
      SquashNoDouble(tail);
      assert lines == [lines[0]] + tail;
    }
  }

  /** Squashing after a first line depends only on the next line and on the
      squashed rest. */
  lemma SquashCons(x: string, l: seq<string>, m: seq<string>)
    requires l != [] && m != [] && l[0] == m[0]
    requires SquashEmpty(l) == SquashEmpty(m)
    ensures SquashEmpty([x] + l) == SquashEmpty([x] + m)
  {
    assert ([x] + l)[1..] == l && ([x] + m)[1..] == m;
  }

  /** The first line of a text before its first line break. */
  lemma SplitLead(a: string, t: string)
    requires '\n' !in a
    ensures Split(a + "\n" + t) == [a] + Split(t)
  {
    SplitAppend(a, t);
    SplitSingle(a);
  }

  /** A text without line breaks is left alone by the replacement. */
  lemma ReplaceSingleLine(s: string)
    requires '\n' !in s
    ensures ReplaceTripleNewlines(s) == s
  {
    ReplacePrefix(s, "");
    assert s + "" == s;
  }

  /** From a line break on, the replaced text still starts with that line break. */
  lemma ReplaceKeepsBreak(b: string)
    ensures var r := ReplaceTripleNewlines("\n" + b); r != [] && r[0] == '\n'
  {
    ReplaceAtNewline(b);
  }

  /** The replacement never touches the first line. */
  lemma ReplaceKeepsFirstLine(s: string)
    ensures Split(ReplaceTripleNewlines(s))[0] == Split(s)[0]
  {
    if '\n' !in s {
      ReplaceSingleLine(s);
    } else {
      var k := IndexOfNewline(s);
      assert s == s[..k] + "\n" + s[k + 1..];
      SplitLead(s[..k], s[k + 1..]);
      FirstLineKept(s[..k], s[k + 1..]);
    }
  }

  lemma FirstLineKept(a: string, b: string)
    requires '\n' !in a
    ensures Split(ReplaceTripleNewlines(a + "\n" + b))[0] == a
  {
    var r := ReplaceTripleNewlines("\n" + b);
    ReplaceFromBreak(a, b);
    ReplaceKeepsBreak(b);
    assert a + r == a + "\n" + r[1..];
    SplitLead(a, r[1..]);
  }

  /** The lines of a text whose first line is followed by three line breaks. */
  lemma RunLines(a: string, rest: string)
    requires '\n' !in a
    ensures Split(a + "\n" + ("\n\n" + rest)) == [a, "", ""] + Split(rest)
  {
    assert "\n\n" + rest == "" + "\n" + ("" + "\n" + rest);
    SplitLead(a, "\n\n" + rest);
    SplitLead("", "" + "\n" + rest);
    SplitLead("", rest);
  }

  /** The same text after the replacement: one of the two empty lines is gone. */
  lemma RunReplacedLines(a: string, rest: string)
    requires '\n' !in a
    ensures Split(ReplaceTripleNewlines(a + "\n" + ("\n\n" + rest)))
         == [a, ""] + Split(ReplaceTripleNewlines(rest))
  {
    var r := ReplaceTripleNewlines(rest);
    RunReplaced(a, rest);
    SplitLead(a, "" + "\n" + r);
    SplitLead("", r);
  }

  /** Three line breaks after the first line become two. */
  lemma RunReplaced(a: string, rest: string)
    requires '\n' !in a
    ensures ReplaceTripleNewlines(a + "\n" + ("\n\n" + rest))
         == a + "\n" + ("" + "\n" + ReplaceTripleNewlines(rest))
  {
    var b := "\n\n" + rest;
    RunStart(rest);
    ReplaceFromBreak(a, b);
    ReplaceAtRun(b);
    BlankRegrouped(a, ReplaceTripleNewlines(rest));
  }

  lemma RunStart(rest: string)
    ensures var b := "\n\n" + rest; |b| >= 2 && b[..2] == "\n\n" && b[2..] == rest
  {
  }

  /** Two line breaks, regrouped as a line break, an empty line and a line break. */
  lemma BlankRegrouped(a: string, x: string)
    ensures a + ("\n\n" + x) == a + "\n" + ("" + "\n" + x)
  {
  }

  /** Squashing forgets one empty line of a run. */
  lemma SquashRun(a: string, lr: seq<string>, lt: seq<string>)
    requires lr != [] && lt != [] && lr[0] == lt[0]
    requires SquashEmpty(lr) == SquashEmpty(lt)
    ensures SquashEmpty([a, ""] + lr) == SquashEmpty([a, "", ""] + lt)
  {
    SquashCons("", lr, lt);
    SquashDoubleHead(lt);
    SquashCons(a, [""] + lr, [""] + ([""] + lt));
    Nested(a, lr, lt);
  }

  /** Of two leading empty lines, squashing keeps one. */
  lemma SquashDoubleHead(l: seq<string>)
    ensures SquashEmpty([""] + ([""] + l)) == SquashEmpty([""] + l)
  {
    assert ([""] + ([""] + l))[1..] == [""] + l;
  }

  lemma Nested(a: string, lr: seq<string>, lt: seq<string>)
    ensures [a, ""] + lr == [a] + ([""] + lr)
    ensures [a, "", ""] + lt == [a] + ([""] + ([""] + lt))
  {
  }

  /** At a run of three line breaks after the first line, one empty line of
      the run goes and the squashed lines stay the same. */
  lemma ReplaceSquashAtRun(a: string, rest: string)
    requires '\n' !in a
    requires SquashEmpty(Split(ReplaceTripleNewlines(rest))) == SquashEmpty(Split(rest))
    ensures SquashEmpty(Split(ReplaceTripleNewlines(a + "\n" + ("\n\n" + rest))))
         == SquashEmpty(Split(a + "\n" + ("\n\n" + rest)))
  {
    RunLines(a, rest);
    RunReplacedLines(a, rest);
    ReplaceKeepsFirstLine(rest);
    SquashRun(a, Split(ReplaceTripleNewlines(rest)), Split(rest));
  }

  /** At a single line break after the first line, the rest is replaced on its own. */
  lemma ReplaceSquashAtBreak(a: string, b: string)
    requires '\n' !in a
    requires !(|b| >= 2 && b[..2] == "\n\n")
    requires SquashEmpty(Split(ReplaceTripleNewlines(b))) == SquashEmpty(Split(b))
    ensures SquashEmpty(Split(ReplaceTripleNewlines(a + "\n" + b))) == SquashEmpty(Split(a + "\n" + b))
  {
    var r := ReplaceTripleNewlines(b);
    ReplaceFromBreak(a, b);
    ReplaceAtNewline(b);
    assert ReplaceTripleNewlines(a + "\n" + b) == a + "\n" + r;
    SplitLead(a, r);
    SplitLead(a, b);
    ReplaceKeepsFirstLine(b);
    SquashCons(a, Split(r), Split(b));
  }

  /** One replacement only shortens runs of empty lines: squashed, the lines
      are the same before and after. */
  lemma {:induction false} ReplaceSquash(s: string)
    ensures SquashEmpty(Split(ReplaceTripleNewlines(s))) == SquashEmpty(Split(s))
    decreases |s|
  {
    if '\n' !in s {
      ReplaceSingleLine(s);
    } else {
      var k := IndexOfNewline(s);
      var a, b := s[..k], s[k + 1..];
      assert s == a + "\n" + b;
      if |b| >= 2 && b[..2] == "\n\n" {
        ReplaceSquash(b[2..]);
        assert b == "\n\n" + b[2..];
        ReplaceSquashAtRun(a, b[2..]);
      } else {
        ReplaceSquash(b);
        ReplaceSquashAtBreak(a, b);
      }
    }
  }

  /** Two empty lines inside a text, with a line on either side, are a run of
      three line breaks. */
  lemma InteriorRun(lines: seq<string>, i: int)
    requires 1 <= i && i + 2 < |lines|
    ensures lines[i] == "" && lines[i + 1] == "" ==> Contains(Join(lines), TripleNewline)
  {
    if lines[i] == "" && lines[i + 1] == "" {
      var x, y := lines[..i], lines[i..];
      assert lines == x + y;
      JoinAppend(x, y);
      var rest := Join(y[2..]);
      assert y[1..][1..] == y[2..];
      assert Join(y) == "" + "\n" + ("" + "\n" + rest);
      var t := Join(x) + "\n" + ("" + "\n" + ("" + "\n" + rest));
      assert t[|Join(x)|..|Join(x)| + 3] == TripleNewline;
      assert OccursAt(t, TripleNewline, |Join(x)|);
    }
  }

  /** The first line of a text that does not start with a line break is not empty. */
  lemma FirstLineOf(s: string)
    requires s != [] && s[0] != '\n'
    ensures Split(s)[0] != ""
  {
  }

  /** The last line of a text that does not end in a line break is not empty. */
  lemma LastLineOf(s: string)
    requires s != [] && s[|s| - 1] != '\n'
    ensures Split(s)[|Split(s)| - 1] != ""
  {
    var lines := Split(s);
    var n := |lines|;
    JoinSplit(s);
    if n == 1 {
      assert s == lines[0];
    } else {
      assert lines == lines[..n - 1] + [lines[n - 1]];
      JoinAppend(lines[..n - 1], [lines[n - 1]]);
      assert s == Join(lines[..n - 1]) + "\n" + lines[n - 1];
    }
  }

  /** A text with neither whitespace at its ends nor a run of three line
      breaks has no two adjacent empty lines. */
  lemma TrimmedNoDouble(s: string)
    requires Trimmed(s) && !Contains(s, TripleNewline)
    ensures NoDoubleEmpty(Split(s))
  {
    var lines := Split(s);
    var n := |lines|;
    if s != [] {
      FirstLineOf(s);
      LastLineOf(s);
      JoinSplit(s);
      forall i | 0 <= i < n - 1 ensures lines[i] != "" || lines[i + 1] != "" {
        if 1 <= i && i + 2 < n {
          InteriorRun(lines, i);
        }
      }
    }
  }
}
