/**
  Frame patterns: a template with `%x` placeholders compiled into a regular
  expression with one capture group per placeholder, parsing a matched line into
  a `FrameInfo`, and formatting a line by splicing new field text into the spans
  of the groups.

  The regular-expression engine is not modelled: its result for one line is an
  input, a sequence of groups (empty when the expression does not match, else the
  whole match followed by one entry per capture group).
*/
module FramePatterns {
  import opened Wrappers
  import opened Text
  import opened Frames
  import Decimal
  import ClassUtil

  // The regular-expression fragment each placeholder letter is rewritten into.
  const RegexClass: string := @"(?:[^\s\"":./()]+\.)*[^\s"":./()]+"
  const RegexClassSlash: string := @"(?:[^\s\"":./()]+/)*[^\s"":./()]+"
  const RegexSourceFile: string := @"(?:[^:()\d][^:()]*)?"
  const RegexLineNumber: string := @"-?\b\d+\b"
  const RegexMember: string := @"<?[^\s\"":./()]+>?"
  const RegexType: string := RegexClass + @"(?:\[\])*"
  const RegexArguments: string := "(?:" + RegexType + @"(?:\s*,\s*" + RegexType + ")*)?"

  /** The slots of the placeholder-letter table; slot 0 belongs to the whole match and is never written. */
  const Capacity := 32

  /** The fragment of a placeholder letter; an unknown letter has none (its group stays empty). */
  function Fragment(letter: char): string {
    match letter
    case 'c' => RegexClass
    case 'C' => RegexClassSlash
    case 's' => RegexSourceFile
    case 'l' => RegexLineNumber
    case 't' => RegexType
    case 'f' => RegexMember
    case 'm' => RegexMember
    case 'a' => RegexArguments
    case _ => ""
  }

  /**
    A compiled pattern. `letters[i - 1]` is the letter of capture group `i`, so
    `|letters|` is the placeholder count and group 0 (the whole match) has none.
  */
  datatype FramePattern = FramePattern(
    regularExpression: string,
    letters: seq<char>,
    expression: string,
    verbose: bool)

  /** The letter recorded for group `i`, if any. */
  function TypeOf(p: FramePattern, i: int): (r: Option<char>)
    ensures r.Some? <==> 1 <= i <= |p.letters|
    ensures r.Some? ==> r.value == p.letters[i - 1]
  {
    if 1 <= i <= |p.letters| then Some(p.letters[i - 1]) else None
  }

  // ---------------------------------------------------------------------------
  // Compilation

  /** One placeholder of a template: the literal text before it and its letter. */
  datatype Placeholder = Placeholder(literal: string, letter: char)

  /**
    The outcome of scanning a template: its placeholders with the literal text
    before each, and the literal tail; or an out-of-range access.
  */
  datatype ScanResult = Scanned(pieces: seq<Placeholder>, tail: string) | Overrun

  /**
    The scan of `NewFramePattern` over the remainder `rest` of a template of length
    `total`, with `count` placeholders already compiled. It stops at the end of the
    placeholders, when the position of the `%` found within `rest` equals
    `total - 1` (a relative position compared with the absolute last one), or when
    the table is full. A placeholder that would be written to slot 32, or whose
    letter would lie past the end of the template, is an out-of-range access.
  */
  function ScanRest(rest: string, total: nat, count: nat): ScanResult
    decreases |rest|
  {
    var nextIndex := IndexOfChar(rest, '%');
    if nextIndex < 0 || nextIndex == total - 1 || count == Capacity then
      Scanned([], rest)
    else if nextIndex + 1 >= |rest| || count + 1 == Capacity then Overrun
    else Prepend(Placeholder(rest[..nextIndex], rest[nextIndex + 1]), ScanRest(rest[nextIndex + 2..], total, count + 1))
  }

  /** A placeholder in front of the scan of the rest; an out-of-range access stays one. */
  function Prepend(piece: Placeholder, rest: ScanResult): ScanResult {
    match rest
    case Overrun => Overrun
    case Scanned(pieces, tail) => Scanned([piece] + pieces, tail)
  }

  /** The scan of a whole template. */
  function Scan(template: string): ScanResult {
    ScanRest(template, |template|, 0)
  }

  /** A successful scan past a placeholder: the placeholder followed by the scan of the rest. */
  lemma ScanRestStep(rest: string, total: nat, count: nat) returns (k: nat, after: ScanResult)
    requires ScanRest(rest, total, count).Scanned?
    requires IndexOfChar(rest, '%') >= 0 && IndexOfChar(rest, '%') != total - 1 && count < Capacity
    ensures k == IndexOfChar(rest, '%') && k + 2 <= |rest| && count + 1 < Capacity
    ensures after == ScanRest(rest[k + 2..], total, count + 1) && after.Scanned?
    ensures ScanRest(rest, total, count) == Scanned([Placeholder(rest[..k], rest[k + 1])] + after.pieces, after.tail)
  {
    k := IndexOfChar(rest, '%');
    after := ScanRest(rest[k + 2..], total, count + 1);
  }

  /** Slices of a suffix are slices of the whole. */
  lemma SuffixSlices(template: string, index: nat, k: nat)
    requires index + k + 2 <= |template|
    ensures template[index..][k + 2..] == template[index + k + 2..]
    ensures template[index..][..k] == template[index..index + k]
    ensures template[index..][k + 1] == template[index + k + 1]
  {
  }

  /** The scan of a template from position `index` on, with `count` placeholders compiled. */
  function ScanFrom(template: string, index: nat, count: nat): ScanResult
    requires index <= |template|
  {
    ScanRest(template[index..], |template|, count)
  }

  /**
    The compiling loop has consumed `template[..index]`, producing the placeholders
    `done`, and the scan of the rest completes the scan of the whole template.
  */
  ghost predicate Progress(template: string, index: nat, done: seq<Placeholder>, whole: seq<Placeholder>, tail: string) {
    && index <= |template|
    && |done| < Capacity
    && var rest := ScanFrom(template, index, |done|);
    && rest.Scanned?
    && whole == done + rest.pieces
    && tail == rest.tail
  }

  lemma ProgressStart(template: string)
    requires Compilable(template)
    ensures Progress(template, 0, [], Scan(template).pieces, Scan(template).tail)
  {
    assert template[0..] == template;
  }

  /** One placeholder scanned from position `index` of a template. */
  lemma ScanFromStep(template: string, index: nat, count: nat) returns (next: nat, after: ScanResult)
    requires index <= |template| && count < Capacity
    requires ScanFrom(template, index, count).Scanned?
    requires IndexOfChar(template[index..], '%') >= 0 && IndexOfChar(template[index..], '%') != |template| - 1
    ensures next == index + IndexOfChar(template[index..], '%') + 2 && next <= |template|
    ensures count + 1 < Capacity
    ensures after == ScanFrom(template, next, count + 1) && after.Scanned?
    ensures ScanFrom(template, index, count)
         == Scanned([Placeholder(template[index..next - 2], template[next - 1])] + after.pieces, after.tail)
  {
    var rest := template[index..];
    var k, a := ScanRestStep(rest, |template|, count);
    next := index + k + 2;
    SuffixSlices(template, index, k);
    var piece := Placeholder(rest[..k], rest[k + 1]);
    assert piece == Placeholder(template[index..next - 2], template[next - 1]);
    assert rest[k + 2..] == template[next..];
    after := a;
  }

  /** The loop's step over a placeholder keeps `Progress`. */
  lemma ProgressStep(template: string, index: nat, done: seq<Placeholder>, whole: seq<Placeholder>, tail: string)
    returns (next: nat, piece: Placeholder)
    requires Progress(template, index, done, whole, tail)
    requires IndexOfChar(template[index..], '%') >= 0 && IndexOfChar(template[index..], '%') != |template| - 1
    ensures next == index + IndexOfChar(template[index..], '%') + 2 && next <= |template|
    ensures piece == Placeholder(template[index..next - 2], template[next - 1])
    ensures Progress(template, next, done + [piece], whole, tail)
  {
    var after;
    next, after := ScanFromStep(template, index, |done|);
    piece := Placeholder(template[index..next - 2], template[next - 1]);
    var done' := done + [piece];
    assert |done'| == |done| + 1;
    assert whole == done' + after.pieces by {
      assert (done + [piece]) + after.pieces == done + ([piece] + after.pieces);
    }
  }

  /** Where the loop stops, the rest of the template is the tail. */
  lemma ProgressEnd(template: string, index: nat, done: seq<Placeholder>, whole: seq<Placeholder>, tail: string)
    requires Progress(template, index, done, whole, tail)
    requires IndexOfChar(template[index..], '%') < 0 || IndexOfChar(template[index..], '%') == |template| - 1
    ensures whole == done && tail == template[index..]
  {
    assert done + [] == done;
  }

  /** The templates `NewFramePattern` accepts without an out-of-range access. */
  predicate Compilable(template: string) {
    Scan(template).Scanned?
  }

  /** A scan started with `count` placeholders compiled adds fewer than `Capacity - count`. */
  lemma {:induction false} ScanRestBound(rest: string, total: nat, count: nat)
    requires count < Capacity
    requires ScanRest(rest, total, count).Scanned?
    ensures count + |ScanRest(rest, total, count).pieces| < Capacity
    decreases |rest|
  {
    var nextIndex := IndexOfChar(rest, '%');
    if !(nextIndex < 0 || nextIndex == total - 1 || count == Capacity) {
      ScanRestBound(rest[nextIndex + 2..], total, count + 1);
    }
  }

  /** The template text of placeholders followed by a literal tail. */
  function Render(pieces: seq<Placeholder>, tail: string): string
    decreases |pieces|
  {
    if |pieces| == 0 then tail
    else pieces[0].literal + "%" + [pieces[0].letter] + Render(pieces[1..], tail)
  }

  /**
    The expression of a scanned template: each placeholder replaced by a group
    around the fragment of its letter, under the rewriting `fragment`.
  */
  function Expected(pieces: seq<Placeholder>, tail: string, fragment: char -> string): string
    decreases |pieces|
  {
    if |pieces| == 0 then tail
    else pieces[0].literal + "(" + fragment(pieces[0].letter) + ")" + Expected(pieces[1..], tail, fragment)
  }

  lemma {:induction false} ExpectedAppend(
    a: seq<Placeholder>, b: seq<Placeholder>, tail: string, fragment: char -> string)
    ensures Expected(a + b, tail, fragment) == Expected(a, "", fragment) + Expected(b, tail, fragment)
    decreases |a|
  {
    if |a| == 0 {
      assert a + b == b;
    } else {
      assert (a + b)[0] == a[0];
      assert (a + b)[1..] == a[1..] + b;
      ExpectedAppend(a[1..], b, tail, fragment);
    }
  }

  lemma ExpectedSnoc(done: seq<Placeholder>, piece: Placeholder, fragment: char -> string)
    ensures Expected(done + [piece], "", fragment)
         == Expected(done, "", fragment) + piece.literal + "(" + fragment(piece.letter) + ")"
  {
    ExpectedAppend(done, [piece], "", fragment);
    assert [piece][1..] == [];
  }

  /** The placeholder letters in order: the table slots 1, 2, ... of the Go code. */
  function LettersOf(pieces: seq<Placeholder>): (r: seq<char>)
    ensures |r| == |pieces|
    ensures forall i :: 0 <= i < |pieces| ==> r[i] == pieces[i].letter
  {
    seq(|pieces|, i requires 0 <= i < |pieces| => pieces[i].letter)
  }

  lemma LettersOfSnoc(done: seq<Placeholder>, piece: Placeholder)
    ensures LettersOf(done + [piece]) == LettersOf(done) + [piece.letter]
  {
  }

  /**
    `NewFramePattern`: the loop of the Go code, appending to a buffer, with the
    letter-to-fragment rewriting as the parameter `fragment`.
  */
  method CompileWith(template: string, verbose: bool, fragment: char -> string) returns (p: FramePattern)
    requires Compilable(template)
    ensures p.regularExpression == template && p.verbose == verbose
    ensures p.expression == Expected(Scan(template).pieces, Scan(template).tail, fragment)
    ensures p.letters == LettersOf(Scan(template).pieces)
    ensures |p.letters| < Capacity
  {
    var buffer := "";
    ghost var done: seq<Placeholder> := [];
    var letters: seq<char> := [];
    var index := 0;
    ghost var whole, tail := Scan(template).pieces, Scan(template).tail;
    ProgressStart(template);
    while true
      invariant Progress(template, index, done, whole, tail)
      invariant buffer == Expected(done, "", fragment)
      invariant letters == LettersOf(done)
      decreases |template| - index
    {
      var nextIndex := IndexOfChar(template[index..], '%');
      if nextIndex < 0 || nextIndex == |template| - 1 || |letters| == Capacity {
        break;
      }
      ghost var next, piece := ProgressStep(template, index, done, whole, tail);
      nextIndex := index + nextIndex;
      var letter := template[nextIndex + 1];
      assert piece == Placeholder(template[index..nextIndex], letter);
      ExpectedSnoc(done, piece, fragment);
      LettersOfSnoc(done, piece);
      buffer := buffer + template[index..nextIndex] + "(" + fragment(letter) + ")";
      letters := letters + [letter];
      done := done + [piece];
      index := nextIndex + 2;
      assert index == next;
    }
    ProgressEnd(template, index, done, whole, tail);
    ExpectedAppend(done, [], template[index..], fragment);
    assert done + [] == done;
    buffer := buffer + template[index..];
    ScanRestBound(template, |template|, 0);
    p := FramePattern(template, letters, buffer, verbose);
  }

  /** `NewFramePattern` with the fragment table of the Go code. */
  method Compile(template: string, verbose: bool) returns (p: FramePattern)
    requires Compilable(template)
    ensures p.regularExpression == template && p.verbose == verbose
    ensures p.expression == Expected(Scan(template).pieces, Scan(template).tail, Fragment)
    ensures p.letters == LettersOf(Scan(template).pieces)
    ensures |p.letters| < Capacity
  {
    p := CompileWith(template, verbose, Fragment);
  }

  /** Literal text and tail free of `%`: every `%` of the template starts a placeholder. */
  predicate PlainLiterals(pieces: seq<Placeholder>, tail: string) {
    && (forall i :: 0 <= i < |pieces| ==> '%' !in pieces[i].literal)
    && '%' !in tail
  }

  lemma FirstPercentIndex(literal: string, rest: string)
    requires '%' !in literal
    ensures IndexOfChar(literal + "%" + rest, '%') == |literal|
  {
    var s := literal + "%" + rest;
    assert s[|literal|] == '%';
    IndexOfCharLeast(s, '%');
    forall i | 0 <= i < |literal| ensures s[i] != '%' {
      assert s[i] == literal[i];
    }
  }

  /** One step of the scan over a placeholder that is not at the end of the template. */
  lemma ScanStep(literal: string, letter: char, rest: string, total: nat, count: nat)
    requires '%' !in literal && count + 1 < Capacity
    requires |literal| + 2 + |rest| <= total
    ensures ScanRest(literal + "%" + [letter] + rest, total, count)
         == Prepend(Placeholder(literal, letter), ScanRest(rest, total, count + 1))
  {
    var s := literal + "%" + [letter] + rest;
    FirstPercentIndex(literal, [letter] + rest);
    assert s == literal + "%" + ([letter] + rest);
    assert s[..|literal|] == literal;
    assert s[|literal| + 2..] == rest;
  }

  lemma PlainLiteralsRest(pieces: seq<Placeholder>, tail: string)
    requires PlainLiterals(pieces, tail) && |pieces| > 0
    ensures '%' !in pieces[0].literal
    ensures PlainLiterals(pieces[1..], tail)
  {
    forall i | 0 <= i < |pieces[1..]| ensures '%' !in pieces[1..][i].literal {
      assert pieces[1..][i] == pieces[i + 1];
    }
  }

  /** The scan of the template text of `pieces` and `tail`, from a remainder of a template. */
  function ScanOfRender(pieces: seq<Placeholder>, tail: string, total: nat, count: nat): ScanResult {
    ScanRest(Render(pieces, tail), total, count)
  }

  /** The scan of a rendered remainder over its first placeholder. */
  lemma RenderStep(pieces: seq<Placeholder>, tail: string, total: nat, count: nat)
    requires PlainLiterals(pieces, tail) && |pieces| > 0
    requires |Render(pieces, tail)| <= total
    requires count + 1 < Capacity
    ensures PlainLiterals(pieces[1..], tail) && |Render(pieces[1..], tail)| <= total
    ensures ScanOfRender(pieces, tail, total, count) == Prepend(pieces[0], ScanOfRender(pieces[1..], tail, total, count + 1))
  {
    var literal, letter, rest := pieces[0].literal, pieces[0].letter, Render(pieces[1..], tail);
    PlainLiteralsRest(pieces, tail);
    ScanStep(literal, letter, rest, total, count);
  }

  /** The scan of a rendered remainder recovers its placeholders and tail. */
  lemma {:induction false} ScanRender(pieces: seq<Placeholder>, tail: string, total: nat, count: nat)
    requires PlainLiterals(pieces, tail)
    requires |Render(pieces, tail)| <= total
    requires count + |pieces| < Capacity
    ensures ScanOfRender(pieces, tail, total, count) == Scanned(pieces, tail)
    decreases |pieces|
  {
    if |pieces| == 0 {
      assert IndexOfChar(tail, '%') < 0;
    } else {
      RenderStep(pieces, tail, total, count);
      ScanRender(pieces[1..], tail, total, count + 1);
      assert [pieces[0]] + pieces[1..] == pieces;
    }
  }

  /**
    Scanning a template recovers exactly its placeholders and tail, so compilation
    copies the literal text verbatim, wraps each placeholder's fragment in exactly
    one group, appends the tail, and records the letters in order.
  */
  lemma CompileRender(pieces: seq<Placeholder>, tail: string)
    requires PlainLiterals(pieces, tail)
    requires |pieces| < Capacity
    ensures Scan(Render(pieces, tail)) == Scanned(pieces, tail)
  {
    ScanRender(pieces, tail, |Render(pieces, tail)|, 0);
  }

  /** From the 32nd placeholder on, the scan runs out of slots. */
  lemma {:induction false} ScanRenderOverrun(pieces: seq<Placeholder>, tail: string, total: nat, count: nat)
    requires PlainLiterals(pieces, tail)
    requires |Render(pieces, tail)| <= total
    requires count < Capacity <= count + |pieces|
    ensures ScanOfRender(pieces, tail, total, count) == Overrun
    decreases |pieces|
  {
    if count + 1 < Capacity {
      RenderStep(pieces, tail, total, count);
      ScanRenderOverrun(pieces[1..], tail, total, count + 1);
    } else {
      var literal, letter, rest := pieces[0].literal, pieces[0].letter, Render(pieces[1..], tail);
      PlainLiteralsRest(pieces, tail);
      FirstPercentIndex(literal, [letter] + rest);
      assert Render(pieces, tail) == literal + "%" + ([letter] + rest);
    }
  }

  /** A template compiles exactly when it has fewer than 32 placeholders. */
  lemma CompilableIffUnderCapacity(pieces: seq<Placeholder>, tail: string)
    requires PlainLiterals(pieces, tail)
    ensures Compilable(Render(pieces, tail)) <==> |pieces| < Capacity
  {
    if |pieces| < Capacity {
      ScanRender(pieces, tail, |Render(pieces, tail)|, 0);
    } else {
      ScanRenderOverrun(pieces, tail, |Render(pieces, tail)|, 0);
    }
  }

  /**
    A `%` at the very end of a template after a placeholder is read past the end,
    while a template that is a lone `%` compiles to itself.
  */
  lemma TrailingPercentExamples()
    ensures Scan("%c%") == Overrun
    ensures Scan("%") == Scanned([], "%")
  {
    FirstPercentIndex("", "c%");
    assert "%c%"[2..] == "%";
    FirstPercentIndex("", "");
  }

  // ---------------------------------------------------------------------------
  // Matching

  /** One capture group of a match: not participating, or the span `[start, end)` of the line. */
  datatype Group = Absent | Span(start: int, end: int)

  /**
    What the regular-expression engine delivers for a pattern and a line: no
    match, or the whole match and at least one group per placeholder, no more
    groups than the letter table has slots, every participating span inside the
    line, and the participating placeholder groups in increasing order.
  */
  predicate Conforms(p: FramePattern, line: string, results: seq<Group>) {
    && (|results| == 0 || |p.letters| < |results|)
    && |results| <= Capacity
    && (forall i :: 0 <= i < |results| && results[i].Span? ==>
          0 <= results[i].start <= results[i].end <= |line|)
    && (forall i, j :: 1 <= i < j <= |p.letters| && j < |results| && results[i].Span? && results[j].Span? ==>
          results[i].end <= results[j].start)
  }

  /** The text a group captured; a group that does not participate captures nothing. */
  function Captured(line: string, g: Group): (r: string)
    ensures g.Absent? ==> r == ""
    ensures g.Span? && 0 <= g.start <= g.end <= |line| ==> r == line[g.start..g.end]
  {
    if g.Span? && 0 <= g.start <= g.end <= |line| then line[g.start..g.end] else ""
  }

  /** The line number of an `l` capture: the parsed integer, or -1 when it is not one. */
  function LineValue(text: string): int {
    match Decimal.ParseInt(text)
    case Some(n) => n
    case None => -1
  }

  /** Stores a non-empty capture into the field its letter selects. */
  function Store(frame: FrameInfo, letter: Option<char>, text: string): FrameInfo {
    match letter
    case Some('c') => frame.(className := text)
    case Some('C') => frame.(className := ClassUtil.ExternalClassName(text))
    case Some('s') => frame.(sourceFile := text)
    case Some('l') => frame.(lineNumber := LineValue(text))
    case Some('t') => frame.(typeName := text)
    case Some('f') => frame.(fieldName := text)
    case Some('m') => frame.(methodName := text)
    case Some('a') => frame.(arguments := text)
    case _ => frame
  }

  /** The `Parse` loop over the first `k` groups: empty captures are skipped, later ones override. */
  function ParseUpTo(p: FramePattern, line: string, results: seq<Group>, k: nat): FrameInfo
    requires k <= |results|
  {
    if k == 0 then EmptyFrame
    else
      var frame := ParseUpTo(p, line, results, k - 1);
      var text := Captured(line, results[k - 1]);
      if |text| == 0 then frame else Store(frame, TypeOf(p, k - 1), text)
  }

  /** `Parse`: the frame described by a matched line; every field is zero-valued on no match. */
  function Parse(p: FramePattern, line: string, results: seq<Group>): (r: FrameInfo)
    requires Conforms(p, line, results)
    ensures |results| == 0 ==> r == EmptyFrame
  {
    ParseUpTo(p, line, results, |results|)
  }

  /** A non-empty capture and the letter of its group. */
  datatype Capture = Capture(letter: char, text: string)

  /** A field of `FrameInfo` that captures are stored into: `c` and `C` share one. */
  datatype Slot = ClassSlot | LineSlot | TextSlot(letter: char)

  /** The field a placeholder letter feeds. */
  function SlotOf(letter: char): Slot {
    if letter == 'c' || letter == 'C' then ClassSlot
    else if letter == 'l' then LineSlot
    else TextSlot(letter)
  }

  /** Group `i` captured non-empty text and its letter feeds `slot`. */
  predicate Selected(p: FramePattern, line: string, results: seq<Group>, i: nat, slot: Slot)
    requires i < |results|
  {
    |Captured(line, results[i])| > 0 && TypeOf(p, i).Some? && SlotOf(TypeOf(p, i).value) == slot
  }

  /** The last group among the first `k` that is `Selected`, or -1. */
  function LastSelected(p: FramePattern, line: string, results: seq<Group>, k: nat, slot: Slot): (r: int)
    requires k <= |results|
    ensures -1 <= r < k
    ensures r >= 0 ==> Selected(p, line, results, r, slot)
    decreases k
  {
    if k == 0 then -1
    else if Selected(p, line, results, k - 1, slot) then k - 1
    else LastSelected(p, line, results, k - 1, slot)
  }

  /** No group after the one found, or none at all when -1, is `Selected`. */
  lemma {:induction false} LastSelectedIsLast(
    p: FramePattern, line: string, results: seq<Group>, k: nat, slot: Slot, j: int)
    requires k <= |results|
    requires LastSelected(p, line, results, k, slot) < j < k
    ensures !Selected(p, line, results, j, slot)
    decreases k
  {
    if j < k - 1 {
      assert !Selected(p, line, results, k - 1, slot);
      LastSelectedIsLast(p, line, results, k - 1, slot, j);
    }
  }

  /** The last non-empty capture among the first `k` groups whose letter feeds `slot`. */
  function LastCapture(p: FramePattern, line: string, results: seq<Group>, k: nat, slot: Slot)
    : Option<Capture>
    requires k <= |results|
  {
    var i := LastSelected(p, line, results, k, slot);
    if i < 0 then None else Some(Capture(TypeOf(p, i).value, Captured(line, results[i])))
  }

  /** `LastCapture` over one more group. */
  lemma LastCaptureStep(p: FramePattern, line: string, results: seq<Group>, k: nat, slot: Slot)
    requires 0 < k <= |results|
    ensures LastCapture(p, line, results, k, slot) ==
      if Selected(p, line, results, k - 1, slot)
      then Some(Capture(TypeOf(p, k - 1).value, Captured(line, results[k - 1])))
      else LastCapture(p, line, results, k - 1, slot)
  {
  }

  function TextOr(c: Option<Capture>, default: string): string {
    if c.Some? then c.value.text else default
  }

  /** The class name a capture gives: a `C` capture has `/` turned into `.`. */
  function ClassText(c: Option<Capture>): string {
    match c
    case None => ""
    case Some(c) => if c.letter == 'C' then ClassUtil.ExternalClassName(c.text) else c.text
  }

  /** The line number a capture gives, zero without one. */
  function LineOf(c: Option<Capture>): int {
    match c
    case None => 0
    case Some(c) => LineValue(c.text)
  }

  /** The plain text field that the letter `s`, `t`, `f`, `m` or `a` selects. */
  function TextField(frame: FrameInfo, letter: char): string
    requires letter in {'s', 't', 'f', 'm', 'a'}
  {
    match letter
    case 's' => frame.sourceFile
    case 't' => frame.typeName
    case 'f' => frame.fieldName
    case 'm' => frame.methodName
    case 'a' => frame.arguments
  }

  /** Storing a capture changes only the field its letter selects. */
  lemma StoreFields(frame: FrameInfo, letter: Option<char>, text: string)
    ensures forall l :: l in {'s', 't', 'f', 'm', 'a'} ==>
      TextField(Store(frame, letter, text), l) == if letter == Some(l) then text else TextField(frame, l)
    ensures Store(frame, letter, text).className ==
      if letter == Some('c') then text
      else if letter == Some('C') then ClassUtil.ExternalClassName(text)
      else frame.className
    ensures Store(frame, letter, text).lineNumber ==
      if letter == Some('l') then LineValue(text) else frame.lineNumber
  {
  }

  /** One more group of the `Parse` loop. */
  lemma ParseStep(p: FramePattern, line: string, results: seq<Group>, k: nat)
    requires 0 < k <= |results|
    ensures ParseUpTo(p, line, results, k) ==
      if |Captured(line, results[k - 1])| == 0 then ParseUpTo(p, line, results, k - 1)
      else Store(ParseUpTo(p, line, results, k - 1), TypeOf(p, k - 1), Captured(line, results[k - 1]))
  {
  }

  /**
    The field `slot` of `frame` holds what the capture `c` gives: the class name
    (a `C` capture with `/` turned into `.`), the line number read as an integer,
    or the plain text of a `s`, `t`, `f`, `m` or `a` capture; the zero value
    without a capture.
  */
  predicate Agrees(frame: FrameInfo, c: Option<Capture>, slot: Slot) {
    match slot
    case ClassSlot => frame.className == ClassText(c)
    case LineSlot => frame.lineNumber == LineOf(c)
    case TextSlot(l) => l in {'s', 't', 'f', 'm', 'a'} ==> TextField(frame, l) == TextOr(c, "")
  }

  /** One group of the `Parse` loop keeps a field in agreement with the last capture of its letters. */
  lemma FieldStep(
    prev: FrameInfo, prevCapture: Option<Capture>, kind: Option<char>, text: string,
    slot: Slot, selected: bool, next: FrameInfo, nextCapture: Option<Capture>)
    requires selected <==> |text| > 0 && kind.Some? && SlotOf(kind.value) == slot
    requires next == if |text| == 0 then prev else Store(prev, kind, text)
    requires nextCapture == if selected then Some(Capture(kind.value, text)) else prevCapture
    requires Agrees(prev, prevCapture, slot)
    ensures Agrees(next, nextCapture, slot)
  {
    StoreFields(prev, kind, text);
  }

  /** The field `slot` of the frame parsed from the first `k` groups agrees with their last capture for it. */
  predicate FieldAgrees(p: FramePattern, line: string, results: seq<Group>, k: nat, slot: Slot)
    requires k <= |results|
  {
    Agrees(ParseUpTo(p, line, results, k), LastCapture(p, line, results, k, slot), slot)
  }

  /** `FieldStep` at group `k - 1` of a match. */
  lemma ParseGroup(p: FramePattern, line: string, results: seq<Group>, k: nat, slot: Slot)
    requires 0 < k <= |results|
    requires FieldAgrees(p, line, results, k - 1, slot)
    ensures FieldAgrees(p, line, results, k, slot)
  {
    LastCaptureStep(p, line, results, k, slot);
    ParseStep(p, line, results, k);
    FieldStep(
      ParseUpTo(p, line, results, k - 1), LastCapture(p, line, results, k - 1, slot),
      TypeOf(p, k - 1), Captured(line, results[k - 1]), slot, Selected(p, line, results, k - 1, slot),
      ParseUpTo(p, line, results, k), LastCapture(p, line, results, k, slot));
  }

  /** Every field of the parsed frame agrees with the last capture of its letters. */
  lemma {:induction false} ParseField(p: FramePattern, line: string, results: seq<Group>, k: nat, slot: Slot)
    requires k <= |results|
    ensures FieldAgrees(p, line, results, k, slot)
    decreases k
  {
    if k > 0 {
      ParseField(p, line, results, k - 1, slot);
      ParseGroup(p, line, results, k, slot);
    }
  }

  /**
    Each field of the parsed frame comes from the last non-empty capture of its
    letters (a `C` capture with `/` turned into `.`, an `l` capture read as an
    integer), and keeps its zero value when there is none.
  */
  lemma ParseFields(p: FramePattern, line: string, results: seq<Group>, k: nat)
    requires k <= |results|
    ensures ParseUpTo(p, line, results, k).className == ClassText(LastCapture(p, line, results, k, ClassSlot))
    ensures ParseUpTo(p, line, results, k).sourceFile == TextOr(LastCapture(p, line, results, k, TextSlot('s')), "")
    ensures ParseUpTo(p, line, results, k).lineNumber == LineOf(LastCapture(p, line, results, k, LineSlot))
    ensures ParseUpTo(p, line, results, k).typeName == TextOr(LastCapture(p, line, results, k, TextSlot('t')), "")
    ensures ParseUpTo(p, line, results, k).fieldName == TextOr(LastCapture(p, line, results, k, TextSlot('f')), "")
    ensures ParseUpTo(p, line, results, k).methodName == TextOr(LastCapture(p, line, results, k, TextSlot('m')), "")
    ensures ParseUpTo(p, line, results, k).arguments == TextOr(LastCapture(p, line, results, k, TextSlot('a')), "")
  {
    var r := ParseUpTo(p, line, results, k);
    ParseField(p, line, results, k, ClassSlot);
    ParseField(p, line, results, k, LineSlot);
    ParseField(p, line, results, k, TextSlot('s'));
    ParseField(p, line, results, k, TextSlot('t'));
    ParseField(p, line, results, k, TextSlot('f'));
    ParseField(p, line, results, k, TextSlot('m'));
    ParseField(p, line, results, k, TextSlot('a'));
    assert r.sourceFile == TextField(r, 's') && r.typeName == TextField(r, 't') && r.fieldName == TextField(r, 'f');
    assert r.methodName == TextField(r, 'm') && r.arguments == TextField(r, 'a');
  }

  // ---------------------------------------------------------------------------
  // Formatting

  /** The text `Format` writes for a group of the given letter. */
  function FieldText(p: FramePattern, letter: Option<char>, frame: FrameInfo): string {
    match letter
    case Some('c') => frame.className
    case Some('C') => ReplaceChar(frame.className, '.', '/')
    case Some('s') => frame.sourceFile
    case Some('l') => Decimal.IntToString(frame.lineNumber)
    case Some('t') => frame.typeName
    case Some('f') => (if p.verbose then frame.typeName + " " else "") + frame.fieldName
    case Some('m') =>
      (if p.verbose then frame.typeName + " " else "") + frame.methodName
      + (if p.verbose then "(" + frame.arguments + ")" else "")
    case Some('a') => frame.arguments
    case _ => ""
  }

  /** Verbose patterns prefix members with their type and methods with their arguments too. */
  lemma FieldTextVerbosity(p: FramePattern, frame: FrameInfo)
    ensures !p.verbose ==> FieldText(p, Some('f'), frame) == frame.fieldName
    ensures !p.verbose ==> FieldText(p, Some('m'), frame) == frame.methodName
    ensures p.verbose ==> FieldText(p, Some('f'), frame) == frame.typeName + " " + frame.fieldName
    ensures p.verbose ==>
      FieldText(p, Some('m'), frame) == frame.typeName + " " + frame.methodName + "(" + frame.arguments + ")"
  {
  }

  /** No participating group among `i..last` starts before `lineIndex`. */
  predicate StartsAfter(results: seq<Group>, i: nat, last: int, lineIndex: int) {
    forall j :: i <= j <= last && j < |results| && results[j].Span? ==> lineIndex <= results[j].start
  }

  /**
    The splicing loop of `Format` over groups `i..last`, from position `lineIndex`
    of the line: text between spans is copied, each participating group's span is
    replaced by the frame's text for its letter, and the rest of the line follows.
  */
  function SpliceFrom(
    p: FramePattern, line: string, results: seq<Group>, frame: FrameInfo,
    i: nat, last: nat, lineIndex: nat): string
    requires Conforms(p, line, results)
    requires 1 <= i && last <= |p.letters| && lineIndex <= |line|
    requires StartsAfter(results, i, last, lineIndex)
    decreases last + 1 - i
  {
    if i > last || 2 * i > 2 * |results| then line[lineIndex..]
    else
      match results[i]
      case Absent => SpliceFrom(p, line, results, frame, i + 1, last, lineIndex)
      case Span(start, end) =>
        line[lineIndex..start] + FieldText(p, TypeOf(p, i), frame)
        + SpliceFrom(p, line, results, frame, i + 1, last, end)
  }

  /** Starting at the first group, no span begins before the start of the line. */
  lemma StartsAfterBeginning(p: FramePattern, line: string, results: seq<Group>, last: int)
    requires Conforms(p, line, results)
    ensures StartsAfter(results, 1, last, 0)
  {
  }

  /**
    `Format` as written: the loop stops one group short, so the span of the last
    placeholder is copied through instead of being replaced.
  */
  function FormatAsWritten(p: FramePattern, line: string, results: seq<Group>, frame: FrameInfo): (r: string)
    requires Conforms(p, line, results)
    ensures |results| == 0 ==> r == line
  {
    if |p.letters| == 0 then line
    else
      StartsAfterBeginning(p, line, results, |p.letters| - 1);
      SpliceFrom(p, line, results, frame, 1, |p.letters| - 1, 0)
  }

  /** `Format` with every placeholder's span replaced, as the Java original does. */
  function Format(p: FramePattern, line: string, results: seq<Group>, frame: FrameInfo): (r: string)
    requires Conforms(p, line, results)
    ensures |results| == 0 ==> r == line
  {
    StartsAfterBeginning(p, line, results, |p.letters|);
    SpliceFrom(p, line, results, frame, 1, |p.letters|, 0)
  }

  /**
    Where the two differ: for a lone `%c` placeholder whose group spans the whole
    line `a`, `FormatAsWritten` copies `a` through instead of writing the class `b`.
  */
  lemma FormatAsWrittenSkipsLast(p: FramePattern)
    requires p.letters == ['c']
    ensures Conforms(p, "a", [Span(0, 1), Span(0, 1)])
    ensures FormatAsWritten(p, "a", [Span(0, 1), Span(0, 1)], EmptyFrame.(className := "b")) == "a"
    ensures Format(p, "a", [Span(0, 1), Span(0, 1)], EmptyFrame.(className := "b")) == "b"
  {
    var line, results, frame := "a", [Span(0, 1), Span(0, 1)], EmptyFrame.(className := "b");
    assert Conforms(p, line, results);
    StartsAfterBeginning(p, line, results, 1);
    assert SpliceFrom(p, line, results, frame, 2, 1, 1) == "";
    assert SpliceFrom(p, line, results, frame, 1, 1, 0) == line[0..0] + "b" + "";
  }

  /**
    Splicing in, for every participating group, the very text it captured gives
    back the line.
  */
  lemma {:induction false} SpliceReproduces(
    p: FramePattern, line: string, results: seq<Group>, frame: FrameInfo, i: nat, last: nat, lineIndex: nat)
    requires Conforms(p, line, results)
    requires 1 <= i && last <= |p.letters| && lineIndex <= |line|
    requires StartsAfter(results, i, last, lineIndex)
    requires forall j :: i <= j <= last && j < |results| && results[j].Span? ==>
      FieldText(p, TypeOf(p, j), frame) == Captured(line, results[j])
    ensures SpliceFrom(p, line, results, frame, i, last, lineIndex) == line[lineIndex..]
    decreases last + 1 - i
  {
    if !(i > last || 2 * i > 2 * |results|) {
      match results[i]
      case Absent =>
        SpliceReproduces(p, line, results, frame, i + 1, last, lineIndex);
      case Span(start, end) =>
        assert StartsAfter(results, i + 1, last, end);
        SpliceReproduces(p, line, results, frame, i + 1, last, end);
        assert SpliceFrom(p, line, results, frame, i, last, lineIndex)
            == line[lineIndex..start] + Captured(line, results[i]) + line[end..];
        SliceSplit(line, lineIndex, start, end);
    }
  }

  lemma SliceSplit(line: string, from: nat, start: nat, end: nat)
    requires from <= start <= end <= |line|
    ensures line[from..] == line[from..start] + line[start..end] + line[end..]
  {
  }

  /** A line capture that `Parse` reads back to the same text when printed: a canonical integer. */
  predicate CanonicalLine(text: string) {
    Decimal.IntToString(LineValue(text)) == text
  }

  /**
    The match can be read back unambiguously: every placeholder letter is known,
    no two participating placeholder groups feed the same field, `C` captures hold
    no `.`, and `l` captures are canonical integers.
  */
  predicate Unambiguous(p: FramePattern, line: string, results: seq<Group>)
    requires Conforms(p, line, results)
  {
    && (forall i :: 0 <= i < |p.letters| ==> p.letters[i] in {'c', 'C', 's', 'l', 't', 'f', 'm', 'a'})
    && (forall i, j :: 1 <= i < j <= |p.letters| && j < |results| && results[i].Span? && results[j].Span? ==>
          SlotOf(p.letters[j - 1]) != SlotOf(p.letters[i - 1]))
    && (forall i :: 1 <= i <= |p.letters| && i < |results| && results[i].Span? && p.letters[i - 1] == 'C' ==>
          '.' !in Captured(line, results[i]))
    && (forall i :: 1 <= i <= |p.letters| && i < |results| && results[i].Span? && p.letters[i - 1] == 'l' ==>
          CanonicalLine(Captured(line, results[i])))
  }

  /** Among the first `k` groups, group `i` is the only participating one of its field. */
  lemma {:induction false} LastCaptureIsOnly(
    p: FramePattern, line: string, results: seq<Group>, k: nat, i: nat)
    requires k <= |results|
    requires 1 <= i <= |p.letters| && i < k && results[i].Span?
    requires forall j :: 1 <= j <= |p.letters| && j < k && j != i && results[j].Span? ==>
      SlotOf(p.letters[j - 1]) != SlotOf(p.letters[i - 1])
    ensures LastCapture(p, line, results, k, SlotOf(p.letters[i - 1])) ==
        if |Captured(line, results[i])| > 0 then Some(Capture(p.letters[i - 1], Captured(line, results[i])))
        else None
    decreases k
  {
    var slot := SlotOf(p.letters[i - 1]);
    LastCaptureStep(p, line, results, k, slot);
    if k - 1 != i {
      assert !Selected(p, line, results, k - 1, slot);
      LastCaptureIsOnly(p, line, results, k - 1, i);
    } else if |Captured(line, results[i])| == 0 {
      forall m | 0 <= m < k - 1 ensures !Selected(p, line, results, m, slot) {
        assert m != i;
      }
    }
  }

  /** A `C` capture without `.` survives the turn of `/` into `.` and back. */
  lemma ExternalClassNameBack(text: string)
    requires '.' !in text
    ensures ReplaceChar(ClassUtil.ExternalClassName(text), '.', '/') == text
  {
    var external := ClassUtil.ExternalClassName(text);
    assert forall m :: 0 <= m < |text| ==> ReplaceChar(external, '.', '/')[m] == text[m];
  }

  /** In an unambiguous match, a participating placeholder group is the only one of its field. */
  lemma UnambiguousOnly(p: FramePattern, line: string, results: seq<Group>, j: nat)
    requires Conforms(p, line, results) && Unambiguous(p, line, results)
    requires 1 <= j <= |p.letters| && j < |results| && results[j].Span?
    ensures forall m :: 1 <= m <= |p.letters| && m < |results| && m != j && results[m].Span? ==>
      SlotOf(p.letters[m - 1]) != SlotOf(p.letters[j - 1])
  {
  }

  /**
    A frame whose field for `letter` holds what the sole capture `text` of that
    field gives formats that field back to `text`.
  */
  lemma FieldTextOfSole(p: FramePattern, frame: FrameInfo, letter: char, text: string)
    requires !p.verbose
    requires letter in {'c', 'C', 's', 'l', 't', 'f', 'm', 'a'}
    requires letter in {'c', 'C'} ==>
      frame.className == ClassText(if |text| > 0 then Some(Capture(letter, text)) else None)
    requires letter == 'C' ==> '.' !in text
    requires letter == 'l' ==>
      frame.lineNumber == LineOf(if |text| > 0 then Some(Capture(letter, text)) else None) && CanonicalLine(text)
    requires letter in {'s', 't', 'f', 'm', 'a'} ==>
      TextField(frame, letter) == TextOr(if |text| > 0 then Some(Capture(letter, text)) else None, "")
    ensures FieldText(p, Some(letter), frame) == text
  {
    if letter == 'C' && |text| > 0 {
      ExternalClassNameBack(text);
    }
  }

  /** The frame parsed from an unambiguous match gives each participating group its own text back. */
  lemma CaptureReproduced(p: FramePattern, line: string, results: seq<Group>, j: nat)
    requires Conforms(p, line, results) && Unambiguous(p, line, results)
    requires !p.verbose
    requires 1 <= j <= |p.letters| && j < |results| && results[j].Span?
    ensures FieldText(p, TypeOf(p, j), Parse(p, line, results)) == Captured(line, results[j])
  {
    var frame := Parse(p, line, results);
    var k := |results|;
    var text := Captured(line, results[j]);
    var letter := p.letters[j - 1];
    ParseFields(p, line, results, k);
    UnambiguousOnly(p, line, results, j);
    LastCaptureIsOnly(p, line, results, k, j);
    assert LastCapture(p, line, results, k, SlotOf(letter)) == if |text| > 0 then Some(Capture(letter, text)) else None;
    FieldTextOfSole(p, frame, letter, text);
  }

  /**
    `Format` is the reverse of `Parse`: formatting a line with the frame parsed
    from it, through a plain (non-verbose) pattern, gives back the line.
  */
  lemma FormatParseRoundTrip(p: FramePattern, line: string, results: seq<Group>)
    requires Conforms(p, line, results) && Unambiguous(p, line, results)
    requires !p.verbose
    ensures Format(p, line, results, Parse(p, line, results)) == line
  {
    var frame := Parse(p, line, results);
    forall j | 1 <= j <= |p.letters| && j < |results| && results[j].Span?
      ensures FieldText(p, TypeOf(p, j), frame) == Captured(line, results[j])
    {
      CaptureReproduced(p, line, results, j);
    }
    StartsAfterBeginning(p, line, results, |p.letters|);
    SpliceReproduces(p, line, results, frame, 1, |p.letters|, 0);
  }

  /** `a` ends with `b`. */
  predicate EndsWith(a: string, b: string) {
    |b| <= |a| && a[|a| - |b|..] == b
  }

  /** Text written in front keeps the ending. */
  lemma EndsWithPrepend(c: string, a: string, b: string)
    requires EndsWith(a, b)
    ensures EndsWith(c + a, b)
  {
    assert (c + a)[|c + a| - |b|..] == a[|a| - |b|..];
  }

  /**
    The splice over groups `i..last` ends with the line from any position `s`
    that none of those groups reaches past.
  */
  lemma {:induction false} SpliceKeepsTail(
    p: FramePattern, line: string, results: seq<Group>, frame: FrameInfo,
    i: nat, last: nat, lineIndex: nat, s: nat)
    requires Conforms(p, line, results)
    requires 1 <= i && last <= |p.letters| && lineIndex <= s <= |line|
    requires StartsAfter(results, i, last, lineIndex)
    requires forall j :: i <= j <= last && j < |results| && results[j].Span? ==> results[j].end <= s
    ensures EndsWith(SpliceFrom(p, line, results, frame, i, last, lineIndex), line[s..])
    decreases last + 1 - i
  {
    if i > last || 2 * i > 2 * |results| {
      assert line[lineIndex..][|line[lineIndex..]| - |line[s..]|..] == line[s..];
    } else {
      match results[i]
      case Absent =>
        SpliceKeepsTail(p, line, results, frame, i + 1, last, lineIndex, s);
      case Span(start, end) =>
        assert StartsAfter(results, i + 1, last, end);
        SpliceKeepsTail(p, line, results, frame, i + 1, last, end, s);
        EndsWithPrepend(
          line[lineIndex..start] + FieldText(p, TypeOf(p, i), frame),
          SpliceFrom(p, line, results, frame, i + 1, last, end), line[s..]);
    }
  }

  /**
    Whatever the frame, the as-written `Format` copies the line through from the
    start of the last placeholder's span: that span is never replaced.
  */
  lemma FormatAsWrittenKeepsLastSpan(p: FramePattern, line: string, results: seq<Group>, frame: FrameInfo)
    requires Conforms(p, line, results)
    requires 0 < |p.letters| < |results| && results[|p.letters|].Span?
    ensures EndsWith(FormatAsWritten(p, line, results, frame), line[results[|p.letters|].start..])
  {
    var n := |p.letters|;
    StartsAfterBeginning(p, line, results, n - 1);
    SpliceKeepsTail(p, line, results, frame, 1, n - 1, 0, results[n].start);
  }

  /**
    The as-written `Format` also gives back a line with the frame parsed from it:
    the groups it does replace get their own text.
  */
  lemma FormatAsWrittenParseRoundTrip(p: FramePattern, line: string, results: seq<Group>)
    requires Conforms(p, line, results) && Unambiguous(p, line, results)
    requires !p.verbose
    ensures FormatAsWritten(p, line, results, Parse(p, line, results)) == line
  {
    if |p.letters| > 0 {
      var frame := Parse(p, line, results);
      forall j | 1 <= j <= |p.letters| - 1 && j < |results| && results[j].Span?
        ensures FieldText(p, TypeOf(p, j), frame) == Captured(line, results[j])
      {
        CaptureReproduced(p, line, results, j);
      }
      StartsAfterBeginning(p, line, results, |p.letters| - 1);
      SpliceReproduces(p, line, results, frame, 1, |p.letters| - 1, 0);
    }
  }
}
