/**
 * Text cleaning: the five rewrites `clean_text` applies to a caption, and the
 * per-entry map `clean_transcript` applies to a transcript.
 *
 * Character classes are those of ASCII: `\w` is a letter, a digit or `_`,
 * `\s` is the whitespace Python's `re` recognises below 128, and lowercasing
 * changes only `A`-`Z`.
 */
module Preprocessing {
  import opened Outcomes
  import opened Transcript

  // ---------------------------------------------------------------------------
  // Character classes
  // ---------------------------------------------------------------------------

  /** `\w`: a letter, a digit or the underscore. */
  predicate IsWordChar(ch: char)
  {
    ('a' <= ch <= 'z') || ('A' <= ch <= 'Z') || ('0' <= ch <= '9') || ch == '_'
  }

  /** `\s`: space, tab, line feed, vertical tab, form feed, carriage return, and 0x1C-0x1F. */
  predicate IsSpace(ch: char)
  {
    ch == ' ' || (9 <= ch as int <= 13) || (28 <= ch as int <= 31)
  }

  /** The punctuation the character filter keeps: `. , ! ? ' -`. */
  predicate IsKeptPunct(ch: char)
  {
    ch == '.' || ch == ',' || ch == '!' || ch == '?' || ch == '\'' || ch == '-'
  }

  /** The punctuation whose runs are collapsed: `! ? . ,`. */
  predicate IsRunPunct(ch: char)
  {
    ch == '!' || ch == '?' || ch == '.' || ch == ','
  }

  /** What survives the character filter `[^\w\s.,!?'-]`. */
  predicate IsAllowed(ch: char)
  {
    IsWordChar(ch) || IsSpace(ch) || IsKeptPunct(ch)
  }

  predicate IsUpper(ch: char) { 'A' <= ch <= 'Z' }

  function LowerChar(ch: char): char
  {
    if IsUpper(ch) then (ch as int + 32) as char else ch
  }

  // ---------------------------------------------------------------------------
  // The shape of a cleaned text
  // ---------------------------------------------------------------------------

  /** Every character is a word character, a plain space or kept punctuation. */
  predicate OnlyAllowed(s: string)
  {
    forall ch :: ch in s ==> IsWordChar(ch) || ch == ' ' || IsKeptPunct(ch)
  }

  predicate NoUpper(s: string)
  {
    forall ch :: ch in s ==> !IsUpper(ch)
  }

  /** Whitespace occurs only as single plain spaces between other characters. */
  predicate SpacesNormalized(s: string)
  {
    (forall k :: 0 <= k < |s| && IsSpace(s[k]) ==> s[k] == ' ')
    && (forall k :: 0 <= k < |s| - 1 ==> !(IsSpace(s[k]) && IsSpace(s[k + 1])))
    && (s != [] ==> !IsSpace(s[0]) && !IsSpace(s[|s| - 1]))
  }

  /** No character of `! ? . ,` is immediately repeated. */
  predicate NoRepeatedPunct(s: string)
  {
    forall k :: 0 <= k < |s| - 1 ==> !(IsRunPunct(s[k]) && s[k + 1] == s[k])
  }

  predicate IsClean(s: string)
  {
    OnlyAllowed(s) && NoUpper(s) && SpacesNormalized(s) && NoRepeatedPunct(s)
  }

  /** `r` is `s` with some characters deleted: what is left keeps its order. */
  predicate IsSubseq(r: string, s: string)
    decreases |s|
  {
    if r == [] then true
    else if s == [] then false
    else (r[0] == s[0] && IsSubseq(r[1..], s[1..])) || IsSubseq(r, s[1..])
  }

  /** Deleting a prefix of `s` as well still leaves `s` with deletions. */
  lemma {:induction false} SubseqSkip(r: string, s: string, m: nat)
    requires m <= |s| && IsSubseq(r, s[m..])
    ensures IsSubseq(r, s)
    decreases m
  {
    if m > 0 {
      assert s[1..][m - 1..] == s[m..];
      SubseqSkip(r, s[1..], m - 1);
    }
  }

  // ---------------------------------------------------------------------------
  // The five rewrites
  // ---------------------------------------------------------------------------

  /**
   * The first `]` at or after `j` that the lazy `.*?\]` reaches: `.` does not
   * cross a line feed.
   */
  function ClosingBracket(s: string, j: nat): (r: Option<nat>)
    ensures r.Some? ==> j <= r.value < |s| && s[r.value] == ']'
    ensures r.Some? ==> forall k :: j <= k < r.value ==> s[k] != ']' && s[k] != '\n'
    ensures r.None? ==> forall k :: j <= k < |s| && s[k] == ']' ==> '\n' in s[j..k]
    decreases |s| - j
  {
    if j >= |s| then None
    else if s[j] == ']' then Some(j)
    else if s[j] == '\n' then None
    else ClosingBracket(s, j + 1)
  }

  /** `re.sub(r"\[.*?\]", "", s)`: drops each `[` ... `]` group on one line, leftmost first. */
  function DropBracketed(s: string): string
    decreases |s|
  {
    if s == [] then []
    else if s[0] == '[' && ClosingBracket(s, 1).Some? then DropBracketed(s[ClosingBracket(s, 1).value + 1..])
    else [s[0]] + DropBracketed(s[1..])
  }

  /** `re.sub(r"[^\w\s.,!?'-]", "", s)`: keeps only allowed characters. */
  function KeepAllowed(s: string): string
  {
    if s == [] then []
    else if IsAllowed(s[0]) then [s[0]] + KeepAllowed(s[1..])
    else KeepAllowed(s[1..])
  }

  /** `re.sub(r"([!?.,])\1+", r"\1", s)`: a run of one of `! ? . ,` becomes one character. */
  function CollapseRuns(s: string): string
  {
    if s == [] then []
    else if |s| > 1 && IsRunPunct(s[0]) && s[1] == s[0] then CollapseRuns(s[1..])
    else [s[0]] + CollapseRuns(s[1..])
  }

  /** `s.lower()`, restricted to ASCII: character by character. */
  function Lower(s: string): string
  {
    seq(|s|, k requires 0 <= k < |s| => LowerChar(s[k]))
  }

  /** `re.sub(r"\s+", " ", s)`: each run of whitespace becomes one plain space. */
  function SqueezeSpace(s: string): string
  {
    if s == [] then []
    else if |s| > 1 && IsSpace(s[0]) && IsSpace(s[1]) then SqueezeSpace(s[1..])
    else [if IsSpace(s[0]) then ' ' else s[0]] + SqueezeSpace(s[1..])
  }

  /** Drops leading whitespace. */
  function StripLeft(s: string): string
  {
    if s != [] && IsSpace(s[0]) then StripLeft(s[1..]) else s
  }

  /** Drops trailing whitespace. */
  function StripRight(s: string): string
  {
    if s != [] && IsSpace(s[|s| - 1]) then StripRight(s[..|s| - 1]) else s
  }

  /** `s.strip()`. */
  function Strip(s: string): string
  {
    StripRight(StripLeft(s))
  }

  /** `clean_text`: the five rewrites, one after the other. */
  function CleanText(s: string): string
  {
    Strip(SqueezeSpace(Lower(CollapseRuns(KeepAllowed(DropBracketed(s))))))
  }

  // ---------------------------------------------------------------------------
  // What each rewrite guarantees
  // ---------------------------------------------------------------------------

  /** Every character bracket removal outputs occurs in its input. */
  lemma {:induction false} DropBracketedChars(s: string)
    ensures forall ch :: ch in DropBracketed(s) ==> ch in s
    decreases |s|
  {
    if s != [] {
      if s[0] == '[' && ClosingBracket(s, 1).Some? {
        DropBracketedChars(s[ClosingBracket(s, 1).value + 1..]);
      } else {
        DropBracketedChars(s[1..]);
      }
    }
  }

  /** Bracket removal only deletes: the output is the input with characters taken out. */
  lemma {:induction false} DropBracketedSubseq(s: string)
    ensures IsSubseq(DropBracketed(s), s)
    decreases |s|
  {
    if s != [] {
      if s[0] == '[' && ClosingBracket(s, 1).Some? {
        var m := ClosingBracket(s, 1).value + 1;
        DropBracketedSubseq(s[m..]);
        SubseqSkip(DropBracketed(s[m..]), s, m);
      } else {
        DropBracketedSubseq(s[1..]);
        assert DropBracketed(s)[1..] == DropBracketed(s[1..]);
      }
    }
  }

  /** The character filter only deletes. */
  lemma {:induction false} KeepAllowedSubseq(s: string)
    ensures IsSubseq(KeepAllowed(s), s)
  {
    if s != [] {
      KeepAllowedSubseq(s[1..]);
      if IsAllowed(s[0]) {
        assert KeepAllowed(s)[1..] == KeepAllowed(s[1..]);
      } else {
        SubseqSkip(KeepAllowed(s[1..]), s, 1);
      }
    }
  }

  /** The character filter leaves only characters it allows. */
  lemma {:induction false} KeepAllowedChars(s: string)
    ensures forall ch :: ch in KeepAllowed(s) ==> ch in s && IsAllowed(ch)
  {
    if s != [] {
      KeepAllowedChars(s[1..]);
    }
  }

  /** Collapsing keeps the first character, outputs only input characters, and leaves no repeated `! ? . ,`. */
  lemma {:induction false} CollapseRunsShape(s: string)
    ensures var r := CollapseRuns(s);
      (forall ch :: ch in r ==> ch in s)
      && (s != [] ==> r != [] && r[0] == s[0])
      && NoRepeatedPunct(r)
  {
    if s != [] {
      CollapseRunsShape(s[1..]);
    }
  }

  /** Collapsing only deletes. */
  lemma {:induction false} CollapseRunsSubseq(s: string)
    ensures IsSubseq(CollapseRuns(s), s)
  {
    if s != [] {
      CollapseRunsSubseq(s[1..]);
      if |s| > 1 && IsRunPunct(s[0]) && s[1] == s[0] {
        SubseqSkip(CollapseRuns(s[1..]), s, 1);
      } else {
        assert CollapseRuns(s)[1..] == CollapseRuns(s[1..]);
      }
    }
  }

  /** Squeezing starts with the first character, or a plain space if that was whitespace. */
  lemma SqueezeSpaceHead(s: string)
    requires s != []
    ensures SqueezeSpace(s) != []
    ensures SqueezeSpace(s)[0] == if IsSpace(s[0]) then ' ' else s[0]
    decreases |s|
  {
    if |s| > 1 && IsSpace(s[0]) && IsSpace(s[1]) {
      SqueezeSpaceHead(s[1..]);
    }
  }

  /** After squeezing, the only whitespace is the plain space; other characters come from the input. */
  lemma {:induction false} SqueezeSpaceChars(s: string)
    ensures forall ch :: ch in SqueezeSpace(s) ==> ch == ' ' || (ch in s && !IsSpace(ch))
  {
    if s != [] {
      SqueezeSpaceChars(s[1..]);
    }
  }

  /** After squeezing, no two whitespace characters are adjacent. */
  lemma {:induction false} SqueezeSpaceSingle(s: string)
    ensures var r := SqueezeSpace(s);
      forall k :: 0 <= k < |r| - 1 ==> !(IsSpace(r[k]) && IsSpace(r[k + 1]))
  {
    if s != [] {
      SqueezeSpaceSingle(s[1..]);
      if !(|s| > 1 && IsSpace(s[0]) && IsSpace(s[1])) && |s| > 1 {
        SqueezeSpaceHead(s[1..]);
      }
    }
  }

  /** Squeezing creates no repeated `! ? . ,`. */
  lemma {:induction false} SqueezeSpaceKeepsNoRepeat(s: string)
    requires NoRepeatedPunct(s)
    ensures NoRepeatedPunct(SqueezeSpace(s))
  {
    if s != [] {
      assert NoRepeatedPunct(s[1..]) by {
        assert forall k :: 0 <= k < |s| - 1 ==> s[1..][k] == s[k + 1];
      }
      SqueezeSpaceKeepsNoRepeat(s[1..]);
      if !(|s| > 1 && IsSpace(s[0]) && IsSpace(s[1])) && |s| > 1 {
        SqueezeSpaceHead(s[1..]);
      }
    }
  }

  /** Left stripping drops a whitespace prefix and nothing else. */
  lemma {:induction false} StripLeftShape(s: string)
    ensures var r := StripLeft(s);
      |r| <= |s| && r == s[|s| - |r|..]
      && (forall k :: 0 <= k < |s| - |r| ==> IsSpace(s[k]))
      && (r != [] ==> !IsSpace(r[0]))
  {
    if s != [] && IsSpace(s[0]) {
      StripLeftShape(s[1..]);
      var r := StripLeft(s[1..]);
      assert s[1..][|s| - 1 - |r|..] == s[|s| - |r|..];
    }
  }

  /** Right stripping drops a whitespace suffix and nothing else. */
  lemma {:induction false} StripRightShape(s: string)
    ensures var r := StripRight(s);
      |r| <= |s| && r == s[..|r|]
      && (forall k :: |r| <= k < |s| ==> IsSpace(s[k]))
      && (r != [] ==> !IsSpace(r[|r| - 1]))
  {
    if s != [] && IsSpace(s[|s| - 1]) {
      StripRightShape(s[..|s| - 1]);
      var r := StripRight(s[..|s| - 1]);
      assert s[..|s| - 1][..|r|] == s[..|r|];
    }
  }

  /** A contiguous part of a string keeps the properties stated pair by pair. */
  lemma SliceKeeps(s: string, i: nat, j: nat)
    requires i <= j <= |s|
    ensures NoRepeatedPunct(s) ==> NoRepeatedPunct(s[i..j])
    ensures (forall k :: 0 <= k < |s| - 1 ==> !(IsSpace(s[k]) && IsSpace(s[k + 1])))
        ==> (forall k :: 0 <= k < j - i - 1 ==> !(IsSpace(s[i..j][k]) && IsSpace(s[i..j][k + 1])))
    ensures forall ch :: ch in s[i..j] ==> ch in s
  {
    var t := s[i..j];
    assert forall k :: 0 <= k < |t| ==> t[k] == s[i + k];
  }

  /**
   * `strip()` leaves a contiguous part of its input with no whitespace at either
   * end, and keeps the rest of the shape.
   */
  lemma StripShape(s: string)
    ensures var r := Strip(s);
      (r != [] ==> !IsSpace(r[0]) && !IsSpace(r[|r| - 1]))
      && (exists i :: 0 <= i <= |s| && r <= s[i..])
      && (forall ch :: ch in r ==> ch in s)
      && (NoRepeatedPunct(s) ==> NoRepeatedPunct(r))
      && ((forall k :: 0 <= k < |s| - 1 ==> !(IsSpace(s[k]) && IsSpace(s[k + 1])))
          ==> (forall k :: 0 <= k < |r| - 1 ==> !(IsSpace(r[k]) && IsSpace(r[k + 1]))))
  {
    var l := StripLeft(s);
    var r := StripRight(l);
    StripLeftShape(s);
    StripRightShape(l);
    var i := |s| - |l|;
    assert r == s[i..i + |r|] by {
      assert l == s[i..];
      assert r == l[..|r|];
    }
    SliceKeeps(s, i, i + |r|);
    assert r <= s[i..];
  }

  /** Lowercasing keeps the character classes and removes the upper-case letters. */
  lemma LowerShape(s: string)
    requires forall ch :: ch in s ==> IsAllowed(ch)
    requires NoRepeatedPunct(s)
    ensures forall ch :: ch in Lower(s) ==> IsAllowed(ch) && !IsUpper(ch)
    ensures NoRepeatedPunct(Lower(s))
  {
    var r := Lower(s);
    forall ch | ch in r ensures IsAllowed(ch) && !IsUpper(ch) {
      var k :| 0 <= k < |r| && r[k] == ch;
      assert s[k] in s;
    }
  }

  /**
   * The characters `clean_text` outputs: word characters, plain spaces and
   * `. , ! ? ' -` only; hence no brackets and no upper case.
   */
  lemma CleanTextChars(s: string)
    ensures OnlyAllowed(CleanText(s)) && NoUpper(CleanText(s))
    ensures '[' !in CleanText(s) && ']' !in CleanText(s)
  {
    var z := DropBracketed(s);
    var a := KeepAllowed(z);
    var b := CollapseRuns(a);
    var c := Lower(b);
    var d := SqueezeSpace(c);
    var r := Strip(d);
    KeepAllowedChars(z);
    CollapseRunsShape(a);
    LowerShape(b);
    SqueezeSpaceChars(c);
    StripShape(d);
    forall ch | ch in r ensures (IsWordChar(ch) || ch == ' ' || IsKeptPunct(ch)) && !IsUpper(ch) {
      assert ch in d;
    }
  }

  /**
   * The layout of `clean_text`'s output: whitespace only as single plain spaces,
   * none at either end, and no immediately repeated `! ? . ,`.
   */
  lemma CleanTextLayout(s: string)
    ensures SpacesNormalized(CleanText(s)) && NoRepeatedPunct(CleanText(s))
  {
    var a := KeepAllowed(DropBracketed(s));
    var b := CollapseRuns(a);
    var c := Lower(b);
    var d := SqueezeSpace(c);
    var r := Strip(d);
    CleanTextChars(s);
    CollapseRunsShape(a);
    LowerShape(b) by {
      KeepAllowedChars(DropBracketed(s));
    }
    SqueezeSpaceSingle(c);
    assert forall k :: 0 <= k < |SqueezeSpace(c)| - 1 ==> !(IsSpace(SqueezeSpace(c)[k]) && IsSpace(SqueezeSpace(c)[k + 1]));
    SqueezeSpaceKeepsNoRepeat(c);
    StripShape(d);
    forall k | 0 <= k < |r| && IsSpace(r[k]) ensures r[k] == ' ' {
      assert r[k] in r;
    }
  }

  /** Everything `clean_text` promises about its output, together. */
  lemma CleanTextShape(s: string)
    ensures IsClean(CleanText(s))
  {
    CleanTextChars(s);
    CleanTextLayout(s);
  }

  // ---------------------------------------------------------------------------
  // Each rewrite leaves clean text alone, so cleaning twice is cleaning once
  // ---------------------------------------------------------------------------

  /** Text without `[` in front of the rest passes the bracket rewrite unchanged. */
  lemma {:induction false} DropBracketedPrefix(a: string, t: string)
    requires '[' !in a
    ensures DropBracketed(a + t) == a + DropBracketed(t)
    decreases |a|
  {
    if a != [] {
      assert (a + t)[0] == a[0];
      assert (a + t)[1..] == a[1..] + t;
      assert a[0] in a;
      DropBracketedPrefix(a[1..], t);
    } else {
      assert a + t == t;
    }
  }

  /**
   * A `[` followed on the same line by `]` goes, together with everything up to
   * and including the first such `]`.
   */
  lemma BracketGroupRemoved(a: string, m: string, b: string)
    requires '[' !in a && ']' !in m && '\n' !in m
    ensures DropBracketed(a + ['['] + m + [']'] + b) == a + DropBracketed(b)
  {
    var g := ['['] + m + [']'] + b;
    assert a + ['['] + m + [']'] + b == a + g;
    DropBracketedPrefix(a, g);
    assert forall k :: 1 <= k <= |m| ==> g[k] == m[k - 1];
    assert g[|m| + 1] == ']';
    assert ClosingBracket(g, 1) == Some(|m| + 1) by {
      ClosingBracketAt(g, 1, |m| + 1);
    }
    assert g[|m| + 2..] == b;
  }

  /** The lazy search stops at `e` when `e` is the first `]` and no line feed comes before it. */
  lemma {:induction false} ClosingBracketAt(s: string, j: nat, e: nat)
    requires j <= e < |s| && s[e] == ']'
    requires forall k :: j <= k < e ==> s[k] != ']' && s[k] != '\n'
    ensures ClosingBracket(s, j) == Some(e)
    decreases e - j
  {
    if j < e {
      ClosingBracketAt(s, j + 1, e);
    }
  }

  lemma KeepAllowedUnchanged(s: string)
    requires forall ch :: ch in s ==> IsAllowed(ch)
    ensures KeepAllowed(s) == s
  {
    if s != [] {
      assert s[0] in s;
      assert forall ch :: ch in s[1..] ==> ch in s;
      KeepAllowedUnchanged(s[1..]);
    }
  }

  lemma CollapseRunsUnchanged(s: string)
    requires NoRepeatedPunct(s)
    ensures CollapseRuns(s) == s
  {
    if s != [] {
      CollapseRunsUnchanged(s[1..]);
    }
  }

  lemma LowerUnchanged(s: string)
    requires NoUpper(s)
    ensures Lower(s) == s
  {
    assert forall k :: 0 <= k < |s| ==> s[k] in s;
  }

  lemma {:induction false} SqueezeSpaceUnchanged(s: string)
    requires forall k :: 0 <= k < |s| && IsSpace(s[k]) ==> s[k] == ' '
    requires forall k :: 0 <= k < |s| - 1 ==> !(IsSpace(s[k]) && IsSpace(s[k + 1]))
    ensures SqueezeSpace(s) == s
  {
    if s != [] {
      SqueezeSpaceUnchanged(s[1..]);
    }
  }

  lemma StripUnchanged(s: string)
    requires s != [] ==> !IsSpace(s[0]) && !IsSpace(s[|s| - 1])
    ensures Strip(s) == s
  {
  }

  /** `clean_text` is idempotent. */
  lemma CleanTextIdempotent(s: string)
    ensures CleanText(CleanText(s)) == CleanText(s)
  {
    var r := CleanText(s);
    CleanTextShape(s);
    CleanTextChars(s);
    DropBracketedPrefix(r, []);
    assert r + [] == r;
    KeepAllowedUnchanged(r);
    CollapseRunsUnchanged(r);
    LowerUnchanged(r);
    SqueezeSpaceUnchanged(r);
    StripUnchanged(r);
  }

  // ---------------------------------------------------------------------------
  // Cleaning a transcript
  // ---------------------------------------------------------------------------

  /**
   * `clean_transcript`: the same entries in the same order, each with its text
   * cleaned and its id and timestamps copied.
   */
  method CleanTranscript(transcript: seq<Entry>) returns (cleaned: seq<Entry>)
    ensures |cleaned| == |transcript|
    ensures forall k :: 0 <= k < |transcript| ==>
      cleaned[k] == Entry(transcript[k].id, CleanText(transcript[k].text), transcript[k].start, transcript[k].end)
  {
    cleaned := [];
    for i := 0 to |transcript|
      invariant |cleaned| == i
      invariant forall k :: 0 <= k < i ==>
        cleaned[k] == Entry(transcript[k].id, CleanText(transcript[k].text), transcript[k].start, transcript[k].end)
    {
      var entry := transcript[i];
      cleaned := cleaned + [Entry(entry.id, CleanText(entry.text), entry.start, entry.end)];
    }
  }
}
