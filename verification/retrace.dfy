/**
  The per-line work of `Retrace`: every candidate frame of a parsed line is
  formatted back into the line, alternatives after the first have the part they
  share with the previous alternative blanked out, and, on request, every
  remaining token is looked up as an obfuscated class name.
*/
module Retrace {
  import opened Wrappers
  import opened Text
  import opened Frames
  import opened FramePatterns
  import opened MappingProcessor

  // ---------------------------------------------------------------------------
  // Trimming of alternatives

  /** The `FirstNonCommonIndex` loop from position `i`, once `s1` and `s2` agree before `i`. */
  function FirstNonCommonFrom(s1: string, s2: string, i: nat): (k: nat)
    requires i <= |s1| && i <= |s2|
    requires s1[..i] == s2[..i]
    ensures i <= k <= |s1| && k <= |s2|
    ensures s1[..k] == s2[..k]
    ensures k < |s1| && k < |s2| ==> s1[k] != s2[k]
    decreases |s1| - i
  {
    if i < |s1| && i < |s2| then
      if s1[i] != s2[i] then i
      else
        assert s1[..i + 1] == s1[..i] + [s1[i]] && s2[..i + 1] == s2[..i] + [s2[i]];
        FirstNonCommonFrom(s1, s2, i + 1)
    else i
  }

  /**
    `FirstNonCommonIndex`: the length of the longest common prefix of the two
    strings, that is the first position where they differ or where one ends.
  */
  function FirstNonCommonIndex(s1: string, s2: string): (k: nat)
    ensures k <= |s1| && k <= |s2|
    ensures s1[..k] == s2[..k]
    ensures k < |s1| && k < |s2| ==> s1[k] != s2[k]
  {
    FirstNonCommonFrom(s1, s2, 0)
  }

  /** `n` spaces. */
  function Spaces(n: nat): (r: string)
    ensures |r| == n
    ensures forall i :: 0 <= i < n ==> r[i] == ' '
  {
    seq(n, i => ' ')
  }

  /** The two strings agree on every position up to and including `i`. */
  predicate SharedUpTo(s1: string, s2: string, i: int) {
    0 <= i < |s1| && i < |s2| && s1[..i + 1] == s2[..i + 1]
  }

  /** A position is shared exactly when it lies before the first difference. */
  lemma SharedUpToBelow(s1: string, s2: string, i: int)
    requires 0 <= i < |s1|
    ensures SharedUpTo(s1, s2, i) <==> i < FirstNonCommonIndex(s1, s2)
  {
    var k := FirstNonCommonIndex(s1, s2);
    if i < k {
      assert s1[..i + 1] == s1[..k][..i + 1];
      assert s2[..i + 1] == s2[..k][..i + 1];
    }
  }

  /**
    `Trim`: the first string with the characters it shares, from the start, with
    the second one turned into spaces. Position `i` is blanked exactly when the
    two strings agree on every position up to and including `i`.
  */
  function Trim(s1: string, s2: string): (r: string)
    ensures |r| == |s1|
    ensures forall i :: 0 <= i < |s1| ==> r[i] == if SharedUpTo(s1, s2, i) then ' ' else s1[i]
  {
    var k := FirstNonCommonIndex(s1, s2);
    var r := Spaces(k) + s1[k..];
    forall i | 0 <= i < |s1| ensures SharedUpTo(s1, s2, i) <==> i < k {
      SharedUpToBelow(s1, s2, i);
    }
    r
  }

  /** The blanked part of `Trim` is the longest common prefix; the rest is copied. */
  lemma TrimSplit(s1: string, s2: string)
    ensures Trim(s1, s2) == Spaces(FirstNonCommonIndex(s1, s2)) + s1[FirstNonCommonIndex(s1, s2)..]
  {
    var k := FirstNonCommonIndex(s1, s2);
    var r := Trim(s1, s2);
    forall i | 0 <= i < |s1| ensures r[i] == (Spaces(k) + s1[k..])[i] {
      SharedUpToBelow(s1, s2, i);
    }
  }

  /** A line trimmed against itself is all spaces. */
  lemma TrimSelf(s: string)
    ensures Trim(s, s) == Spaces(|s|)
  {
    var r := Trim(s, s);
    forall i | 0 <= i < |s| ensures r[i] == ' ' {
      assert SharedUpTo(s, s, i);
    }
  }

  /** Nothing is blanked against an empty line. */
  lemma TrimEmpty(s: string)
    ensures Trim(s, "") == s
  {
  }

  // ---------------------------------------------------------------------------
  // Tokens

  /** The length of the run of non-delimiters at the start of `s`. */
  function RunLength(s: string, delim: char -> bool): (n: nat)
    ensures n <= |s|
    ensures forall i :: 0 <= i < n ==> !delim(s[i])
    ensures n < |s| ==> delim(s[n])
  {
    if |s| == 0 || delim(s[0]) then 0 else 1 + RunLength(s[1..], delim)
  }

  /** A token: a lone delimiter, or a non-empty run of non-delimiters. */
  predicate IsToken(token: string, delim: char -> bool) {
    || (|token| == 1 && delim(token[0]))
    || (|token| > 0 && forall i :: 0 <= i < |token| ==> !delim(token[i]))
  }

  /**
    `tokens` cut `s` into tokens, with runs of non-delimiters kept whole: no two
    neighbouring tokens are both runs.
  */
  predicate Tokenization(s: string, tokens: seq<string>, delim: char -> bool) {
    && Concat(tokens) == s
    && (forall i :: 0 <= i < |tokens| ==> IsToken(tokens[i], delim))
    && (forall i :: 0 < i < |tokens| && |tokens[i - 1]| > 0 && |tokens[i]| > 0 ==>
          delim(tokens[i - 1][0]) || delim(tokens[i][0]))
  }

  /** A token in front of a tokenization of the rest of `s` tokenizes `s`, unless two runs would meet. */
  lemma TokenizationCons(s: string, head: string, rest: seq<string>, delim: char -> bool)
    requires IsToken(head, delim) && |head| <= |s| && s[..|head|] == head
    requires Tokenization(s[|head|..], rest, delim)
    requires |rest| > 0 && |rest[0]| > 0 ==> delim(head[0]) || delim(rest[0][0])
    ensures Tokenization(s, [head] + rest, delim)
  {
    var r := [head] + rest;
    assert r[1..] == rest;
    assert s == s[..|head|] + s[|head|..];
    assert Concat(r) == head + Concat(rest);
    forall i | 0 < i < |r| && |r[i - 1]| > 0 && |r[i]| > 0
      ensures delim(r[i - 1][0]) || delim(r[i][0])
    {
      if i > 1 {
        assert r[i - 1] == rest[i - 2] && r[i] == rest[i - 1];
      }
    }
  }

  /**
    `FieldsFuncWithDelims`: the maximal runs of non-delimiters of `s`, with every
    delimiter a token of its own, in order.
  */
  function Tokens(s: string, delim: char -> bool): (r: seq<string>)
    ensures Tokenization(s, r, delim)
    decreases |s|
  {
    if |s| == 0 then []
    else
      var n := if delim(s[0]) then 1 else RunLength(s, delim);
      var rest := Tokens(s[n..], delim);
      assert |rest| > 0 && |rest[0]| > 0 ==> rest[0][0] == s[n] by {
        if |rest| > 0 && |rest[0]| > 0 {
          assert Concat(rest) == rest[0] + Concat(rest[1..]);
        }
      }
      TokenizationCons(s, s[..n], rest, delim);
      [s[..n]] + rest
  }

  /** The first token of a tokenization is a prefix of the string and the rest tokenize the remainder. */
  lemma TokenizationHead(s: string, tokens: seq<string>, delim: char -> bool)
    requires Tokenization(s, tokens, delim) && |tokens| > 0
    ensures |tokens[0]| <= |s| && s[..|tokens[0]|] == tokens[0]
    ensures Tokenization(s[|tokens[0]|..], tokens[1..], delim)
    ensures |tokens| > 1 ==> |tokens[0]| < |s| && tokens[1][0] == s[|tokens[0]|]
  {
    var rest := Concat(tokens[1..]);
    assert s == tokens[0] + rest;
    assert s[|tokens[0]|..] == rest;
    if |tokens| > 1 {
      assert rest == tokens[1..][0] + Concat(tokens[2..]) by {
        assert tokens[1..][1..] == tokens[2..];
      }
    }
    forall i | 0 < i < |tokens[1..]| && |tokens[1..][i - 1]| > 0 && |tokens[1..][i]| > 0
      ensures delim(tokens[1..][i - 1][0]) || delim(tokens[1..][i][0])
    {
      assert tokens[1..][i - 1] == tokens[i] && tokens[1..][i] == tokens[i + 1];
    }
  }

  /** The tokenization of a string is unique: `Tokens` is the only one. */
  lemma {:induction false} TokenizationUnique(s: string, tokens: seq<string>, delim: char -> bool)
    requires Tokenization(s, tokens, delim)
    ensures tokens == Tokens(s, delim)
    decreases |s|
  {
    if |s| == 0 {
      if |tokens| > 0 {
        TokenizationHead(s, tokens, delim);
        assert false;
      }
    } else {
      TokenizationHead(s, tokens, delim);
      var head := tokens[0];
      assert IsToken(head, delim);
      assert head[0] == s[0];
      if delim(s[0]) {
        assert |head| == 1;
        assert head == [s[0]];
        TokenizationUnique(s[1..], tokens[1..], delim);
        assert tokens == [head] + tokens[1..];
      } else {
        var n := RunLength(s, delim);
        var m := |head|;
        assert forall i :: 0 <= i < m ==> !delim(s[i]) by {
          forall i | 0 <= i < m ensures !delim(s[i]) { assert s[i] == head[i]; }
        }
        assert m == n;
        TokenizationUnique(s[m..], tokens[1..], delim);
        assert tokens == [head] + tokens[1..];
      }
    }
  }

  /**
    In the manner of the `FieldsFuncWithDelims` test, splitting on spaces: every
    space is a token of its own and other punctuation stays inside its word.
  */
  lemma TokensExample()
    ensures Tokens("a  b'", c => c == ' ') == ["a", " ", " ", "b'"]
  {
    var delim := (c: char) => c == ' ';
    var tokens := ["a", " ", " ", "b'"];
    assert Concat(tokens) == "a  b'" by {
      assert Concat(tokens[3..]) == "b'";
      assert Concat(tokens[2..]) == " b'";
      assert Concat(tokens[1..]) == "  b'";
    }
    assert Tokenization("a  b'", tokens, delim);
    TokenizationUnique("a  b'", tokens, delim);
  }

  // ---------------------------------------------------------------------------
  // Deobfuscation of whole lines

  /** `deobfuscateFieldsFunc`: white space and the punctuation that surrounds class names. */
  predicate IsDelimiter(c: char) {
    IsSpace(c) || c in "()<>[]{};:,'\"/\\"
  }

  /** A token `Deobfuscate` copies unchanged: a lone delimiter. */
  predicate IsDelimiterToken(token: string) {
    |token| == 1 && IsDelimiter(token[0])
  }

  /** The text written for one token: delimiters are copied, anything else is looked up as a class. */
  function DeobfuscateToken(t: FrameRemapper, token: string): (r: string)
    ensures IsDelimiterToken(token) ==> r == token
    ensures !IsDelimiterToken(token) && token in t.classMap ==> r == t.classMap[token]
    ensures !IsDelimiterToken(token) && token !in t.classMap ==> r == token
  {
    if IsDelimiterToken(token) then token else GetOriginalClassName(t, token)
  }

  /** The tokens written one after the other; tokens that name no mapped class are copied. */
  function DeobfuscateTokens(t: FrameRemapper, tokens: seq<string>): (r: string)
    ensures (forall i :: 0 <= i < |tokens| ==> IsDelimiterToken(tokens[i]) || tokens[i] !in t.classMap) ==>
      r == Concat(tokens)
  {
    if |tokens| == 0 then ""
    else DeobfuscateToken(t, tokens[0]) + DeobfuscateTokens(t, tokens[1..])
  }

  /** `Deobfuscate`: every token of the line that is an obfuscated class name is replaced by the original. */
  function Deobfuscate(t: FrameRemapper, line: string): string {
    DeobfuscateTokens(t, Tokens(line, IsDelimiter))
  }

  /** A line none of whose tokens is a mapped class name comes back unchanged. */
  lemma DeobfuscateIdentity(t: FrameRemapper, line: string)
    requires forall i :: 0 <= i < |Tokens(line, IsDelimiter)| ==>
      IsDelimiterToken(Tokens(line, IsDelimiter)[i]) || Tokens(line, IsDelimiter)[i] !in t.classMap
    ensures Deobfuscate(t, line) == line
  {
  }

  /** A line that is one word, without delimiters, is looked up as a whole. */
  lemma DeobfuscateWord(t: FrameRemapper, line: string)
    requires |line| > 0
    requires forall i :: 0 <= i < |line| ==> !IsDelimiter(line[i])
    ensures Deobfuscate(t, line) == GetOriginalClassName(t, line)
  {
    var tokens := [line];
    assert Concat(tokens) == line by {
      assert Concat(tokens[1..]) == "";
    }
    assert Tokenization(line, tokens, IsDelimiter);
    TokenizationUnique(line, tokens, IsDelimiter);
    assert DeobfuscateTokens(t, tokens) == DeobfuscateToken(t, line) + DeobfuscateTokens(t, []);
  }

  // ---------------------------------------------------------------------------
  // Handling one parsed line

  /** What `handle` writes for one candidate line: nothing when it is empty, else the (deobfuscated) line. */
  function Written(t: FrameRemapper, allClassNames: bool, s: string): (r: string)
    ensures |s| == 0 ==> r == ""
    ensures |s| > 0 && !allClassNames ==> r == s
  {
    if |s| == 0 then ""
    else if allClassNames then Deobfuscate(t, s)
    else s
  }

  /** What one call of `handle` works with: the table, the setting, the pattern, the line and its match. */
  datatype Handling = Handling(
    t: FrameRemapper, allClassNames: bool, p: FramePattern, line: string, results: seq<Group>)

  /** A handling whose match is one the engine can deliver for its pattern and line. */
  type Job = h: Handling | Conforms(h.p, h.line, h.results)
    witness Handling(EmptyRemapper, false, FramePattern("", [], "", false), "", [])

  /**
    The line with a candidate frame formatted into it, by `Format` as the code has
    it: the last placeholder's span is copied through.
  */
  function Formatted(h: Job, frame: FrameInfo): string {
    FormatAsWritten(h.p, h.line, h.results, frame)
  }

  /**
    The `handle` loop from candidate `j`, with the untrimmed line of the previous
    candidate, if any: each candidate is formatted into the line, trimmed against
    the previous one when the parsed frame has no line number, and written.
  */
  function HandleFrom(h: Job, lineNumber: int, frames: seq<FrameInfo>, j: nat, previous: Option<string>): string
    requires j <= |frames|
    decreases |frames| - j
  {
    if j == |frames| then ""
    else
      var retracedLine := Formatted(h, frames[j]);
      var trimmedLine :=
        if previous.Some? && lineNumber == 0 then Trim(retracedLine, previous.value) else retracedLine;
      Written(h.t, h.allClassNames, trimmedLine) + HandleFrom(h, lineNumber, frames, j + 1, Some(retracedLine))
  }

  /**
    The line for candidate `j`, before it is written: the first candidate and
    every candidate of a frame with a line number as formatted, every later
    candidate of a frame without one trimmed against the candidate before it.
  */
  function CandidateLine(h: Job, lineNumber: int, frames: seq<FrameInfo>, j: nat): (r: string)
    requires j < |frames|
    ensures |r| == |Formatted(h, frames[j])|
    ensures j == 0 || lineNumber != 0 ==> r == Formatted(h, frames[j])
  {
    var retracedLine := Formatted(h, frames[j]);
    if 0 < j && lineNumber == 0 then Trim(retracedLine, Formatted(h, frames[j - 1])) else retracedLine
  }

  /** What is written for each candidate, in candidate order. */
  function Pieces(h: Job, lineNumber: int, frames: seq<FrameInfo>): (r: seq<string>)
    ensures |r| == |frames|
    ensures forall j :: 0 <= j < |frames| ==>
      r[j] == Written(h.t, h.allClassNames, CandidateLine(h, lineNumber, frames, j))
  {
    seq(|frames|, j requires 0 <= j < |frames| => Written(h.t, h.allClassNames, CandidateLine(h, lineNumber, frames, j)))
  }

  /** The untrimmed line of the candidate before `j`, if any. */
  function Previous(h: Job, frames: seq<FrameInfo>, j: nat): Option<string>
    requires j <= |frames|
  {
    if j == 0 then None else Some(Formatted(h, frames[j - 1]))
  }

  /** The loop from candidate `j`, entered as `handle` reaches it. */
  function HandleRest(h: Job, lineNumber: int, frames: seq<FrameInfo>, j: nat): string
    requires j <= |frames|
  {
    HandleFrom(h, lineNumber, frames, j, Previous(h, frames, j))
  }

  /** One turn of the loop writes the piece of candidate `j`. */
  lemma HandleRestStep(h: Job, lineNumber: int, frames: seq<FrameInfo>, j: nat)
    requires j < |frames|
    ensures HandleRest(h, lineNumber, frames, j)
         == Pieces(h, lineNumber, frames)[j] + HandleRest(h, lineNumber, frames, j + 1)
  {
    var previous := Previous(h, frames, j);
    var retracedLine := Formatted(h, frames[j]);
    var trimmedLine :=
      if previous.Some? && lineNumber == 0 then Trim(retracedLine, previous.value) else retracedLine;
    assert trimmedLine == CandidateLine(h, lineNumber, frames, j);
    assert Previous(h, frames, j + 1) == Some(retracedLine);
  }

  /** The pieces of candidates `j` onwards, written one after the other. */
  function PiecesFrom(h: Job, lineNumber: int, frames: seq<FrameInfo>, j: nat): string
    requires j <= |frames|
  {
    Concat(Pieces(h, lineNumber, frames)[j..])
  }

  /** Splitting off the piece of candidate `j`. */
  lemma PiecesFromStep(h: Job, lineNumber: int, frames: seq<FrameInfo>, j: nat)
    requires j < |frames|
    ensures PiecesFrom(h, lineNumber, frames, j)
         == Pieces(h, lineNumber, frames)[j] + PiecesFrom(h, lineNumber, frames, j + 1)
  {
    var pieces := Pieces(h, lineNumber, frames);
    assert pieces[j..][1..] == pieces[j + 1..];
    assert Concat(pieces[j..]) == pieces[j..][0] + Concat(pieces[j..][1..]);
  }

  /** The loop from candidate `j` writes the pieces of candidates `j` onwards. */
  lemma {:induction false} HandleRestPieces(h: Job, lineNumber: int, frames: seq<FrameInfo>, j: nat)
    requires j <= |frames|
    ensures HandleRest(h, lineNumber, frames, j) == PiecesFrom(h, lineNumber, frames, j)
    decreases |frames| - j
  {
    if j < |frames| {
      HandleRestPieces(h, lineNumber, frames, j + 1);
      HandleRestStep(h, lineNumber, frames, j);
      PiecesFromStep(h, lineNumber, frames, j);
    } else {
      assert Pieces(h, lineNumber, frames)[j..] == [];
    }
  }

  /**
    `handle`: for a parsed frame, the pieces of its candidates, in `Transform`
    order; without one, the line itself, deobfuscated when all class names are
    to be resolved.
  */
  function Handle(
    t: FrameRemapper, allClassNames: bool, p: FramePattern, line: string, results: seq<Group>,
    frame: Option<FrameInfo>): (r: string)
    requires Conforms(p, line, results)
    ensures frame.None? && allClassNames ==> r == Deobfuscate(t, line)
    ensures frame.None? && !allClassNames ==> r == line
    ensures frame.Some? ==>
      r == Concat(Pieces(Handling(t, allClassNames, p, line, results),
                         frame.value.lineNumber, Transform(t, frame.value)))
  {
    match frame
    case Some(f) =>
      var h: Job := Handling(t, allClassNames, p, line, results);
      var frames := Transform(t, f);
      HandleRestPieces(h, f.lineNumber, frames, 0);
      assert Pieces(h, f.lineNumber, frames)[0..] == Pieces(h, f.lineNumber, frames);
      HandleFrom(h, f.lineNumber, frames, 0, None)
    case None =>
      if allClassNames then Deobfuscate(t, line) else line
  }

  /** The empty frame names no member, so its only candidate is the pass-through frame. */
  lemma TransformEmptyFrame(t: FrameRemapper)
    requires Keyed(t)
    ensures Transform(t, EmptyFrame) == [PassThrough(t, EmptyFrame)]
  {
    var className := GetOriginalClassName(t, "");
    assert Fields(t, className, "") == [];
    assert Methods(t, className, "") == [];
  }

  /** A single candidate is written as formatted, and an unmatched line formats to itself. */
  lemma SingleCandidateUnmatched(h: Job, lineNumber: int, frame: FrameInfo)
    requires h.results == [] && !h.allClassNames
    ensures Concat(Pieces(h, lineNumber, [frame])) == h.line
  {
    var pieces := Pieces(h, lineNumber, [frame]);
    assert CandidateLine(h, lineNumber, [frame], 0) == h.line;
    assert pieces == [h.line];
    assert Concat(pieces) == h.line + Concat(pieces[1..]);
  }

  /** The frame of a line no pattern group matched has a single candidate, which formats to the line. */
  lemma HandleUnmatched(t: FrameRemapper, p: FramePattern, line: string)
    requires Keyed(t)
    ensures Conforms(p, line, [])
    ensures Handle(t, false, p, line, [], Some(EmptyFrame)) == line
  {
    TransformEmptyFrame(t);
    var h: Job := Handling(t, false, p, line, []);
    SingleCandidateUnmatched(h, 0, PassThrough(t, EmptyFrame));
  }

  // ---------------------------------------------------------------------------
  // One line of a stack trace

  /** `m` is what the regular-expression engine delivers for the pattern `p`, on every line. */
  ghost predicate MatcherOf(p: FramePattern, m: string -> seq<Group>) {
    forall s :: Conforms(p, s, m(s))
  }

  /**
    The work of `Retrace` on one line: both frames are parsed from the line
    itself; the first pattern's candidates are formatted into the line, and the
    second pattern's candidates into what that gave.
  */
  function RetraceLine(
    t: FrameRemapper, allClassNames: bool,
    p1: FramePattern, m1: string -> seq<Group>, p2: FramePattern, m2: string -> seq<Group>,
    line: string): string
    requires MatcherOf(p1, m1) && MatcherOf(p2, m2)
  {
    var frame1 := Parse(p1, line, m1(line));
    var frame2 := Parse(p2, line, m2(line));
    var deobf := Handle(t, allClassNames, p1, line, m1(line), Some(frame1));
    Handle(t, allClassNames, p2, deobf, m2(deobf), Some(frame2))
  }

  /**
    When the second pattern matches neither the line nor the output of the first
    pass, the second pass leaves that output as it is.
  */
  lemma RetraceLineSecondPassIdle(
    t: FrameRemapper, p1: FramePattern, m1: string -> seq<Group>, p2: FramePattern, m2: string -> seq<Group>,
    line: string)
    requires Keyed(t)
    requires MatcherOf(p1, m1) && MatcherOf(p2, m2)
    requires m2(line) == []
    requires m2(Handle(t, false, p1, line, m1(line), Some(Parse(p1, line, m1(line))))) == []
    ensures RetraceLine(t, false, p1, m1, p2, m2, line)
         == Handle(t, false, p1, line, m1(line), Some(Parse(p1, line, m1(line))))
  {
    var deobf := Handle(t, false, p1, line, m1(line), Some(Parse(p1, line, m1(line))));
    assert Parse(p2, line, m2(line)) == EmptyFrame;
    HandleUnmatched(t, p2, deobf);
  }

  /** When the first pattern does not match the line, the second pattern handles the line alone. */
  lemma RetraceLineFirstPassIdle(
    t: FrameRemapper, p1: FramePattern, m1: string -> seq<Group>, p2: FramePattern, m2: string -> seq<Group>,
    line: string)
    requires Keyed(t)
    requires MatcherOf(p1, m1) && MatcherOf(p2, m2)
    requires m1(line) == []
    ensures RetraceLine(t, false, p1, m1, p2, m2, line)
         == Handle(t, false, p2, line, m2(line), Some(Parse(p2, line, m2(line))))
  {
    assert Parse(p1, line, m1(line)) == EmptyFrame;
    HandleUnmatched(t, p1, line);
  }

  /** A line neither pattern matches is written as it is read. */
  lemma RetraceLineUnmatched(
    t: FrameRemapper, p1: FramePattern, m1: string -> seq<Group>, p2: FramePattern, m2: string -> seq<Group>,
    line: string)
    requires Keyed(t)
    requires MatcherOf(p1, m1) && MatcherOf(p2, m2)
    requires m1(line) == [] && m2(line) == []
    ensures RetraceLine(t, false, p1, m1, p2, m2, line) == line
  {
    assert Parse(p1, line, m1(line)) == EmptyFrame;
    HandleUnmatched(t, p1, line);
    RetraceLineSecondPassIdle(t, p1, m1, p2, m2, line);
  }
}
