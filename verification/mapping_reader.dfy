/**
  The reader of ProGuard/R8 mapping files. It scans each line with `IndexOf` and
  slicing only, classifies it as a class header or a class member line, and
  reports what it finds to a mapping processor. The processor is represented by
  the log of calls the reader makes on it, plus the one answer the reader needs
  from it: whether it is interested in the members of a class.
*/
module MappingReader {
  import opened Wrappers
  import opened Text
  import Decimal

  /** One call on the processor interface (`MappingProcessor` in the Go code). */
  datatype Call =
    | ClassMapping(className: string, newClassName: string)
    | FieldMapping(
        className: string, fieldType: string, fieldName: string,
        newClassName: string, newFieldName: string)
    | MethodMapping(
        className: string, firstLineNumber: int, lastLineNumber: int,
        methodType: string, methodName: string, arguments: string,
        newClassName: string, newFirstLineNumber: int, newLastLineNumber: int,
        newMethodName: string)

  /** The processor's answer to a class mapping: does it want that class's members? */
  type Interest = (string, string) -> bool

  // ---------------------------------------------------------------------------
  // Class headers: `original -> obfuscated:`

  /** What a header line produces: the new class context and the call, if one is made. */
  datatype HeaderOutcome = HeaderOutcome(context: string, call: Option<Call>)

  /** The line holds `->` followed, somewhere after it, by `:`. */
  ghost predicate HasHeaderShape(line: string) {
    exists a, c :: OccursAt(line, "->", a) && a + 2 <= c < |line| && line[c] == ':'
  }

  /**
    `MappingReader.ProcessClassMapping`: the text before the first `->` and the text
    between it and the first `:` after it, both trimmed, are the original and the
    obfuscated class names. A line without that shape clears the context and makes
    no call; otherwise the context becomes the original name if the processor is
    interested, and is cleared if not.
  */
  function ProcessClassMapping(line: string, interested: Interest): (r: HeaderOutcome)
    ensures r.call.Some? <==> HasHeaderShape(line)
    ensures r.call.Some? ==> r.call.value.ClassMapping?
    ensures r.call.None? ==> r.context == ""
    ensures r.call.Some? ==>
      r.context == (if interested(r.call.value.className, r.call.value.newClassName)
                    then r.call.value.className else "")
    ensures r.call.Some? ==>
      var a := IndexOf(line, "->", 0);
      && 0 <= a
      && (forall i :: 0 <= i < a ==> !OccursAt(line, "->", i))
      && r.call.value.className == TrimSpace(line[..a])
      && exists c :: a + 2 <= c < |line| && line[c] == ':'
           && (forall i :: a + 2 <= i < c ==> line[i] != ':')
           && r.call.value.newClassName == TrimSpace(line[a + 2..c])
  {
    var arrowIndex := IndexOf(line, "->", 0);
    if arrowIndex < 0 then
      HeaderOutcome("", None)
    else
      var colonIndex := IndexOf(line, ":", arrowIndex + 2);
      if colonIndex < 0 then
        assert !HasHeaderShape(line) by {
          forall a, c | OccursAt(line, "->", a) && a + 2 <= c < |line|
            ensures line[c] != ':'
          {
            OccursAtChar(line, ':', c);
          }
        }
        HeaderOutcome("", None)
      else
        OccursAtChar(line, ':', colonIndex);
        assert forall i :: arrowIndex + 2 <= i < colonIndex ==> line[i] != ':' by {
          forall i | arrowIndex + 2 <= i < colonIndex ensures line[i] != ':' {
            OccursAtChar(line, ':', i);
          }
        }
        var className := TrimSpace(line[0..arrowIndex]);
        var newClassName := TrimSpace(line[arrowIndex + 2..colonIndex]);
        var call := ClassMapping(className, newClassName);
        HeaderOutcome(if interested(className, newClassName) then className else "", Some(call))
  }

  // ---------------------------------------------------------------------------
  // Class member lines:
  //   type name -> new
  //   a:b:type name(args) -> new
  //   a:b:type name(args):c -> new
  //   a:b:type name(args):c:d -> new

  /** Why a member line is rejected. */
  datatype ParseError =
    | MissingDelimiter            // no space after the type, or no `->`
    | BadLineNumber(text: string) // a checked line number that `Atoi` refuses

  /** A member line either produces one field or method call, produces nothing, or fails. */
  datatype MemberOutcome = Emitted(call: Call) | NotEmitted | Failed(error: ParseError)

  /** The offsets of the delimiters of a member line, each -1 when absent. */
  datatype Delimiters = Delimiters(
    colon1: int, colon2: int, space: int,
    argument1: int, argument2: int, colon3: int, colon4: int,
    arrow: int)
  {
    /** Where the search for `->` starts from: the last delimiter found before it. */
    function Cursor(): int {
      if colon4 >= 0 then colon4
      else if colon3 >= 0 then colon3
      else if argument2 >= 0 then argument2
      else space
    }
  }

  /**
    `r` is the first position at or after `from` holding `c`, or -1 when no such
    position exists: what `strings.Index` on `line[from:]` reports, shifted back.
  */
  predicate FirstFrom(line: string, c: char, from: int, r: int) {
    && (r == -1 || (0 <= from <= r < |line| && line[r] == c))
    && (forall i :: 0 <= i < |line| && from <= i && (r == -1 || i < r) ==> line[i] != c)
  }

  /** `strings.Index(line[position:], c)` shifted back to an offset into `line`, or -1. */
  function FindFrom(line: string, c: char, position: int): (r: int)
    requires 0 <= position <= |line|
    ensures FirstFrom(line, c, position, r)
  {
    var r := IndexOf(line, [c], position);
    OccursAtChar(line, c, r);
    assert forall i :: position <= i < |line| && (r == -1 || i < r) ==> line[i] != c by {
      forall i | position <= i < |line| && (r == -1 || i < r) ensures line[i] != c {
        OccursAtChar(line, c, i);
      }
    }
    r
  }

  /** `strings.Index(line[position:], "->")` shifted back to an offset into `line`, or -1. */
  function FindArrow(line: string, position: int): (r: int)
    requires 0 <= position <= |line|
    ensures r == -1 || (position <= r && OccursAt(line, "->", r))
    ensures forall i :: position <= i && (r == -1 || i < r) ==> !OccursAt(line, "->", i)
  {
    IndexOf(line, "->", position)
  }

  /** The next `c` after the delimiter found at `previous`; -1 when that one is missing. */
  function FindAfter(line: string, c: char, previous: int): (r: int)
    requires previous < |line|
    ensures previous < 0 ==> r == -1
    ensures previous >= 0 ==> FirstFrom(line, c, previous + 1, r)
  {
    if previous >= 0 then FindFrom(line, c, previous + 1) else -1
  }

  /** The offset of the second `:` of a line, or -1. */
  function SecondColon(line: string): int {
    FindAfter(line, ':', FindFrom(line, ':', 0))
  }

  /**
    The member scanner starts its search for the separating space two characters
    after the second colon, which Go only allows within the line.
  */
  predicate Scannable(line: string) {
    SecondColon(line) + 2 <= |line|
  }

  /**
    The delimiter search of `ProcessClassMemberMapping`, left to right. Each
    delimiter is the first occurrence of its character where its search starts,
    or -1 when there is none there; a search that depends on a missing
    delimiter is not made and gives -1.
  */
  function Locate(line: string): (d: Delimiters)
    requires Scannable(line)
    ensures FirstFrom(line, ':', 0, d.colon1)
    ensures d.colon1 < 0 ==> d.colon2 == -1
    ensures d.colon1 >= 0 ==> FirstFrom(line, ':', d.colon1 + 1, d.colon2)
    ensures d.colon2 == SecondColon(line)
    ensures FirstFrom(line, ' ', d.colon2 + 2, d.space)
    ensures FirstFrom(line, '(', d.space + 1, d.argument1)
    ensures d.argument1 < 0 ==> d.argument2 == -1
    ensures d.argument1 >= 0 ==> FirstFrom(line, ')', d.argument1 + 1, d.argument2)
    ensures d.argument2 < 0 ==> d.colon3 == -1
    ensures d.argument2 >= 0 ==> FirstFrom(line, ':', d.argument2 + 1, d.colon3)
    ensures d.colon3 < 0 ==> d.colon4 == -1
    ensures d.colon3 >= 0 ==> FirstFrom(line, ':', d.colon3 + 1, d.colon4)
    ensures d.space <= d.Cursor()
    ensures d.arrow == -1 || (d.Cursor() + 1 <= d.arrow && OccursAt(line, "->", d.arrow))
    ensures forall i :: d.Cursor() + 1 <= i && (d.arrow == -1 || i < d.arrow) ==> !OccursAt(line, "->", i)
  {
    var colon1 := FindFrom(line, ':', 0);
    var colon2 := FindAfter(line, ':', colon1);
    var space := FindFrom(line, ' ', colon2 + 2);
    var argument1 := FindFrom(line, '(', space + 1);
    var argument2 := FindAfter(line, ')', argument1);
    var colon3 := FindAfter(line, ':', argument2);
    var colon4 := FindAfter(line, ':', colon3);
    var d := Delimiters(colon1, colon2, space, argument1, argument2, colon3, colon4, -1);
    d.(arrow := FindArrow(line, d.Cursor() + 1))
  }

  /** The delimiters a member line cannot do without. */
  predicate Complete(d: Delimiters) {
    d.space >= 0 && d.arrow >= 0
  }

  /** The trimmed type: between the second colon and the separating space. */
  function MemberType(line: string, d: Delimiters): string
    requires Scannable(line) && d == Locate(line) && Complete(d)
  {
    TrimSpace(line[d.colon2 + 1..d.space])
  }

  /** The trimmed name, possibly qualified: up to the `(` if there is one, else up to `->`. */
  function QualifiedMemberName(line: string, d: Delimiters): string
    requires Scannable(line) && d == Locate(line) && Complete(d)
  {
    var nameEnd := if d.argument1 >= 0 then d.argument1 else d.arrow;
    TrimSpace(line[d.space + 1..nameEnd])
  }

  /** The trimmed obfuscated name after `->`. */
  function NewMemberName(line: string, d: Delimiters): string
    requires Scannable(line) && d == Locate(line) && Complete(d)
  {
    TrimSpace(line[d.arrow + 2..])
  }

  /**
    A qualified name `cls.name` attributes the member to the original class `cls`
    (the part before the LAST dot); an unqualified name keeps the header's class.
  */
  function SplitQualifiedName(className: string, name: string): (r: (string, string))
    ensures LastIndexOfChar(name, '.') < 0 ==> r == (className, name)
    ensures LastIndexOfChar(name, '.') >= 0 ==>
      && r.0 + "." + r.1 == name
      && '.' !in r.1
  {
    var dotIndex := LastIndexOfChar(name, '.');
    if dotIndex >= 0 then
      var r := (name[..dotIndex], name[dotIndex + 1..]);
      assert name == name[..dotIndex] + "." + name[dotIndex + 1..];
      r
    else (className, name)
  }

  /** Line numbers of a method: original bounds, then obfuscated (new) bounds. */
  datatype LineNumbers = LineNumbers(first: int, last: int, newFirst: int, newLast: int)

  /** The outcome of reading the line numbers of a method line. */
  datatype NumbersOutcome = Numbers(value: LineNumbers) | BadNumber(text: string)

  /** `Atoi` of the trimmed text; the error is the trimmed text. */
  function AtoiTrimmed(text: string): Option<int> {
    Decimal.ParseInt(TrimSpace(text))
  }

  /**
    The line-number part of a method line. A leading `a:b:` gives the obfuscated
    bounds and, by default, the original ones; a `:c` suffix makes the original
    bounds (c, c) and `:c:d` makes them (c, d). `a`, `c` and `d` must parse; an
    unreadable `b` is not checked and reads as 0.
  */
  function ReadLineNumbers(line: string, d: Delimiters): (r: NumbersOutcome)
    requires Scannable(line) && d == Locate(line) && Complete(d) && d.argument2 >= 0
    ensures d.colon2 < 0 && d.colon3 < 0 ==> r == Numbers(LineNumbers(0, 0, 0, 0))
    ensures d.colon2 >= 0 && AtoiTrimmed(line[..d.colon1]).None? ==> r.BadNumber?
    ensures r.Numbers? && d.colon2 >= 0 ==>
      && Some(r.value.newFirst) == AtoiTrimmed(line[..d.colon1])
      && r.value.newLast == AtoiTrimmed(line[d.colon1 + 1..d.colon2]).GetOr(0)
    ensures r.Numbers? && d.colon2 < 0 ==> r.value.newFirst == 0 && r.value.newLast == 0
    ensures r.Numbers? && d.colon3 < 0 ==>
      r.value.first == r.value.newFirst && r.value.last == r.value.newLast
    ensures r.Numbers? && d.colon3 >= 0 && d.colon4 < 0 ==>
      && Some(r.value.first) == AtoiTrimmed(line[d.colon3 + 1..d.arrow])
      && r.value.last == r.value.first
    ensures r.Numbers? && d.colon4 >= 0 ==>
      && Some(r.value.first) == AtoiTrimmed(line[d.colon3 + 1..d.colon4])
      && Some(r.value.last) == AtoiTrimmed(line[d.colon4 + 1..d.arrow])
    ensures r.BadNumber? <==>
      || (d.colon2 >= 0 && AtoiTrimmed(line[..d.colon1]).None?)
      || (d.colon3 >= 0 && d.colon4 < 0 && AtoiTrimmed(line[d.colon3 + 1..d.arrow]).None?)
      || (d.colon4 >= 0 && AtoiTrimmed(line[d.colon3 + 1..d.colon4]).None?)
      || (d.colon4 >= 0 && AtoiTrimmed(line[d.colon4 + 1..d.arrow]).None?)
  {
    var leading :=
      if d.colon2 >= 0 then
        match AtoiTrimmed(line[..d.colon1])
        case None => None
        case Some(first) =>
          // the error of this second conversion is never looked at
          var last := AtoiTrimmed(line[d.colon1 + 1..d.colon2]).GetOr(0);
          Some(LineNumbers(first, last, first, last))
      else Some(LineNumbers(0, 0, 0, 0));
    match leading
    case None => BadNumber(TrimSpace(line[..d.colon1]))
    case Some(numbers) =>
      if d.colon3 >= 0 then
        var firstEnd := if d.colon4 > 0 then d.colon4 else d.arrow;
        match AtoiTrimmed(line[d.colon3 + 1..firstEnd])
        case None => BadNumber(TrimSpace(line[d.colon3 + 1..firstEnd]))
        case Some(first) =>
          if d.colon4 < 0 then
            Numbers(numbers.(first := first, last := first))
          else
            match AtoiTrimmed(line[d.colon4 + 1..d.arrow])
            case None => BadNumber(TrimSpace(line[d.colon4 + 1..d.arrow]))
            case Some(last) => Numbers(numbers.(first := first, last := last))
      else Numbers(numbers)
  }

  /**
    `MappingReader.ProcessClassMemberMapping` for the class context `className`.
    The header's class stays the new class name of the call; a qualified member
    name overrides only the original class.
  */
  function ProcessClassMemberMapping(className: string, line: string): (r: MemberOutcome)
    requires Scannable(line)
    ensures r == Failed(MissingDelimiter) <==> !Complete(Locate(line))
    ensures r.Failed? && r.error.BadLineNumber? ==> Locate(line).argument2 >= 0
    ensures r.Emitted? ==> Complete(Locate(line))
    ensures r.Emitted? ==> (r.call.FieldMapping? <==> Locate(line).argument2 < 0)
    ensures r.Emitted? ==> r.call.FieldMapping? || r.call.MethodMapping?
    ensures r.Emitted? && r.call.FieldMapping? ==>
      && r.call.newClassName == className
      && r.call.fieldType != "" && r.call.fieldName != "" && r.call.newFieldName != ""
    ensures r.Emitted? && r.call.MethodMapping? ==>
      && r.call.newClassName == className
      && r.call.methodType != "" && r.call.methodName != "" && r.call.newMethodName != ""
    // no call when the type, the name or the new name is empty
    ensures r.NotEmitted? <==>
      && Complete(Locate(line))
      && (|| MemberType(line, Locate(line)) == ""
          || SplitQualifiedName(className, QualifiedMemberName(line, Locate(line))).1 == ""
          || NewMemberName(line, Locate(line)) == "")
  {
    var d := Locate(line);
    if !Complete(d) then
      Failed(MissingDelimiter)
    else
      var memberType := MemberType(line, d);
      var (originalClass, memberName) := SplitQualifiedName(className, QualifiedMemberName(line, d));
      var newMemberName := NewMemberName(line, d);
      if |memberType| > 0 && |memberName| > 0 && |newMemberName| > 0 then
        if d.argument2 < 0 then
          Emitted(FieldMapping(originalClass, memberType, memberName, className, newMemberName))
        else
          match ReadLineNumbers(line, d)
          case BadNumber(text) => Failed(BadLineNumber(text))
          case Numbers(n) =>
            var arguments := TrimSpace(line[d.argument1 + 1..d.argument2]);
            Emitted(MethodMapping(
              originalClass, n.first, n.last, memberType, memberName, arguments,
              className, n.newFirst, n.newLast, newMemberName))
      else NotEmitted
  }

  /** The parts a successfully read member line reports, in terms of the line's text. */
  lemma MemberParts(className: string, line: string)
    requires Scannable(line)
    requires ProcessClassMemberMapping(className, line).Emitted?
    ensures var d := Locate(line);
      var call := ProcessClassMemberMapping(className, line).call;
      var qualified := QualifiedMemberName(line, d);
      var split := SplitQualifiedName(className, qualified);
      && Complete(d)
      && (call.FieldMapping? ==>
            call == FieldMapping(split.0, MemberType(line, d), split.1, className, NewMemberName(line, d)))
      && (call.MethodMapping? ==>
            && ReadLineNumbers(line, d).Numbers?
            && var n := ReadLineNumbers(line, d).value;
               call == MethodMapping(
                 split.0, n.first, n.last, MemberType(line, d), split.1,
                 TrimSpace(line[d.argument1 + 1..d.argument2]),
                 className, n.newFirst, n.newLast, NewMemberName(line, d)))
  {
  }

  // ---------------------------------------------------------------------------
  // Pump: the whole file as a fold over its lines

  /** The reader's state between lines: the class context and the calls made so far. */
  datatype PumpState = PumpState(className: string, calls: seq<Call>)

  /** Blank lines and `#` comments, after trimming. */
  predicate IsSkipped(rawLine: string) {
    var line := TrimSpace(rawLine);
    |line| == 0 || line[0] == '#'
  }

  /** A class header: a non-skipped line ending in `:` after trimming. */
  predicate IsHeader(rawLine: string) {
    var line := TrimSpace(rawLine);
    !IsSkipped(rawLine) && line[|line| - 1] == ':'
  }

  /** Every member line the reader hands on can be scanned without going out of range. */
  lemma MemberLinesScannable(line: string)
    requires |line| > 0 && line[|line| - 1] != ':'
    ensures Scannable(line)
  {
  }

  /** One iteration of the loop of `Pump`. */
  function Step(st: PumpState, rawLine: string, interested: Interest): (r: PumpState)
    ensures st.calls <= r.calls && |r.calls| <= |st.calls| + 1
    ensures IsSkipped(rawLine) ==> r == st
    ensures !IsSkipped(rawLine) && !IsHeader(rawLine) ==> r.className == st.className
    ensures !IsSkipped(rawLine) && !IsHeader(rawLine) && st.className == "" ==> r == st
    ensures forall i :: |st.calls| <= i < |r.calls| ==> Keyed(r.calls[i])
    // a header sets the context and makes the call the header parser makes
    ensures IsHeader(rawLine) ==>
      var header := ProcessClassMapping(TrimSpace(rawLine), interested);
      r == PumpState(header.context, st.calls + header.call.ToSeq())
    // under a context, a member line appends exactly the call the member parser emits
    ensures !IsSkipped(rawLine) && !IsHeader(rawLine) && st.className != "" ==>
      && Scannable(TrimSpace(rawLine))
      && var outcome := ProcessClassMemberMapping(st.className, TrimSpace(rawLine));
         r == st.(calls := st.calls + if outcome.Emitted? then [outcome.call] else [])
  {
    var line := TrimSpace(rawLine);
    if |line| == 0 then st
    else if line[0] == '#' then st
    else if line[|line| - 1] == ':' then
      var header := ProcessClassMapping(line, interested);
      PumpState(header.context, st.calls + header.call.ToSeq())
    else if |st.className| > 0 then
      MemberLinesScannable(line);
      match ProcessClassMemberMapping(st.className, line)
      case Emitted(call) => st.(calls := st.calls + [call])
      // the error is dropped and the next line is read
      case _ => st
    else st
  }

  /** The loop of `Pump` over the remaining lines. */
  function PumpFrom(st: PumpState, lines: seq<string>, interested: Interest): PumpState
    decreases |lines|
  {
    if |lines| == 0 then st else PumpFrom(Step(st, lines[0], interested), lines[1..], interested)
  }

  /** `MappingReader.Pump` over the lines of a mapping file, starting without a class context. */
  function Pump(lines: seq<string>, interested: Interest): PumpState {
    PumpFrom(PumpState("", []), lines, interested)
  }

  /** Reading two parts of a file in turn is reading the whole file. */
  lemma {:induction false} PumpFromAppend(st: PumpState, a: seq<string>, b: seq<string>, interested: Interest)
    ensures PumpFrom(st, a + b, interested) == PumpFrom(PumpFrom(st, a, interested), b, interested)
    decreases |a|
  {
    if |a| > 0 {
      assert (a + b)[0] == a[0];
      assert (a + b)[1..] == a[1..] + b;
      PumpFromAppend(Step(st, a[0], interested), a[1..], b, interested);
    } else {
      assert a + b == b;
    }
  }

  /** Calls are only ever appended: the calls made for a prefix of the file are kept. */
  lemma {:induction false} PumpFromExtends(st: PumpState, lines: seq<string>, interested: Interest)
    ensures st.calls <= PumpFrom(st, lines, interested).calls
    decreases |lines|
  {
    if |lines| > 0 {
      PumpFromExtends(Step(st, lines[0], interested), lines[1..], interested);
    }
  }

  /** Blank and comment lines can be removed from a file without changing what is read. */
  lemma {:induction false} SkippedLinesInvisible(
    st: PumpState, a: seq<string>, skipped: string, b: seq<string>, interested: Interest)
    requires IsSkipped(skipped)
    ensures PumpFrom(st, a + [skipped] + b, interested) == PumpFrom(st, a + b, interested)
  {
    PumpFromAppend(st, a + [skipped], b, interested);
    PumpFromAppend(st, a, [skipped], interested);
    PumpFromAppend(st, a, b, interested);
  }

  /** A member line that fails to parse leaves the reader exactly as it was. */
  lemma FailedMemberLineIgnored(st: PumpState, rawLine: string, interested: Interest)
    requires !IsSkipped(rawLine) && !IsHeader(rawLine)
    requires var line := TrimSpace(rawLine);
      Scannable(line) && ProcessClassMemberMapping(st.className, line).Failed?
    ensures Step(st, rawLine, interested) == st
  {
  }

  /** What makes a call usable as a key of the symbol tables: non-empty names. */
  predicate Keyed(call: Call) {
    match call
    case ClassMapping(_, _) => true
    case FieldMapping(_, _, _, newClassName, newFieldName) =>
      newClassName != "" && newFieldName != ""
    case MethodMapping(_, _, _, _, _, _, newClassName, _, _, newMethodName) =>
      newClassName != "" && newMethodName != ""
  }

  /** Every field and method call the reader makes names a non-empty class and member. */
  lemma {:induction false} PumpFromKeyed(st: PumpState, lines: seq<string>, interested: Interest)
    requires forall i :: 0 <= i < |st.calls| ==> Keyed(st.calls[i])
    ensures forall i :: 0 <= i < |PumpFrom(st, lines, interested).calls| ==>
      Keyed(PumpFrom(st, lines, interested).calls[i])
    decreases |lines|
  {
    if |lines| > 0 {
      var next := Step(st, lines[0], interested);
      assert forall i :: 0 <= i < |next.calls| ==> Keyed(next.calls[i]) by {
        assert st.calls <= next.calls;
        assert forall i :: 0 <= i < |st.calls| ==> next.calls[i] == st.calls[i];
      }
      PumpFromKeyed(next, lines[1..], interested);
      assert PumpFrom(st, lines, interested) == PumpFrom(next, lines[1..], interested);
    }
  }
}

/**
  A few lines in the format of an R8 mapping file, read end to end: a comment, a
  class header and one method line under it.
*/
module MappingReaderExamples {
  import opened Wrappers
  import opened Text
  import opened MappingReader
  import Decimal

  const Comment := "# compiler: R8"
  const Header := "Orig -> Obf:"
  const Member := "1:3:void foo():10:12 -> a"

  /** The file, with the member line indented as R8 writes it. */
  const Lines := [Comment, Header, "    " + Member]

  /** A search that finds `c` at `k` finds nothing earlier: `k` is its result. */
  lemma FirstFromAt(line: string, c: char, from: int, r: int, k: int)
    requires FirstFrom(line, c, from, r)
    requires 0 <= from <= k < |line| && line[k] == c
    requires forall i :: from <= i < k ==> line[i] != c
    ensures r == k
  {
  }

  lemma IndexOfAt(s: string, sub: string, position: int, k: int)
    requires 0 <= position <= k && OccursAt(s, sub, k)
    requires forall i :: position <= i < k ==> !OccursAt(s, sub, i)
    ensures IndexOf(s, sub, position) == k
  {
  }

  /** The header names `Orig` as the original class and `Obf` as the obfuscated one. */
  lemma HeaderCall(line: string, interested: Interest)
    requires line == Header && interested("Orig", "Obf")
    ensures ProcessClassMapping(line, interested) == HeaderOutcome("Orig", Some(ClassMapping("Orig", "Obf")))
  {
    assert OccursAt(line, "->", 5);
    forall i | 0 <= i < 5 ensures !OccursAt(line, "->", i) { assert line[i] != '-'; }
    IndexOfAt(line, "->", 0, 5);
    OccursAtChar(line, ':', 11);
    forall i | 7 <= i < 11 ensures !OccursAt(line, ":", i) { OccursAtChar(line, ':', i); }
    IndexOfAt(line, ":", 7, 11);
    assert line[0..5] == "Orig ";
    assert line[7..11] == " Obf";
    assert TrimSpace("Orig ") == "Orig";
    assert TrimSpace(" Obf") == "Obf";
  }

  lemma MemberColons(line: string)
    requires line == Member
    ensures FindFrom(line, ':', 0) == 1 && SecondColon(line) == 3
  {
    FirstFromAt(line, ':', 0, FindFrom(line, ':', 0), 1);
    FirstFromAt(line, ':', 2, FindFrom(line, ':', 2), 3);
  }

  lemma MemberSpace(line: string) requires line == Member ensures FindFrom(line, ' ', 5) == 8
  {
    FirstFromAt(line, ' ', 5, FindFrom(line, ' ', 5), 8);
  }

  lemma MemberArguments(line: string)
    requires line == Member
    ensures FindFrom(line, '(', 9) == 12 && FindFrom(line, ')', 13) == 13
  {
    FirstFromAt(line, '(', 9, FindFrom(line, '(', 9), 12);
    FirstFromAt(line, ')', 13, FindFrom(line, ')', 13), 13);
  }

  lemma MemberSuffixColons(line: string)
    requires line == Member
    ensures FindFrom(line, ':', 14) == 14 && FindFrom(line, ':', 15) == 17
  {
    FirstFromAt(line, ':', 14, FindFrom(line, ':', 14), 14);
    FirstFromAt(line, ':', 15, FindFrom(line, ':', 15), 17);
  }

  lemma MemberArrow(line: string) requires line == Member ensures IndexOf(line, "->", 18) == 21
  {
    assert line[21..23] == "->";
    forall i | 18 <= i < 21 ensures !OccursAt(line, "->", i) { assert line[i] != '-'; }
    IndexOfAt(line, "->", 18, 21);
  }

  /** Every delimiter of the method line, found where the text has it. */
  lemma MemberDelimiters(line: string)
    requires line == Member
    ensures Scannable(line)
    ensures Locate(line) == Delimiters(1, 3, 8, 12, 13, 14, 17, 21)
  {
    MemberColons(line);
    MemberSpace(line);
    MemberArguments(line);
    MemberSuffixColons(line);
    MemberArrow(line);
  }

  lemma ParseDigit(s: string)
    requires |s| == 1 && Decimal.IsDigit(s[0])
    ensures Decimal.ParseInt(s) == Some(Decimal.DigitValue(s[0]))
  {
    assert Decimal.AllDigits(s);
    assert s[..|s| - 1] == [];
    assert Decimal.DigitsValue(s) == Decimal.DigitsValue([]) * 10 + Decimal.DigitValue(s[0]);
  }

  lemma ParseTwoDigits(s: string)
    requires |s| == 2 && Decimal.IsDigit(s[0]) && Decimal.IsDigit(s[1])
    ensures Decimal.ParseInt(s) == Some(10 * Decimal.DigitValue(s[0]) + Decimal.DigitValue(s[1]))
  {
    assert Decimal.AllDigits(s);
    assert Decimal.AllDigits(s[..1]);
    ParseDigit(s[..1]);
  }

  lemma AtoiDigit(s: string)
    requires |s| == 1 && Decimal.IsDigit(s[0])
    ensures AtoiTrimmed(s) == Some(Decimal.DigitValue(s[0]))
  {
    TrimSpaceOfTrimmed(s);
    ParseDigit(s);
  }

  lemma AtoiTwoDigits(s: string)
    requires |s| == 2 && Decimal.IsDigit(s[0]) && Decimal.IsDigit(s[1])
    ensures AtoiTrimmed(s) == Some(10 * Decimal.DigitValue(s[0]) + Decimal.DigitValue(s[1]))
  {
    TrimSpaceOfTrimmed(s);
    ParseTwoDigits(s);
  }

  lemma AtoiTwoDigitsSpace(s: string)
    requires |s| == 3 && Decimal.IsDigit(s[0]) && Decimal.IsDigit(s[1]) && s[2] == ' '
    ensures AtoiTrimmed(s) == Some(10 * Decimal.DigitValue(s[0]) + Decimal.DigitValue(s[1]))
  {
    assert s == [] + s[..2] + [s[2]];
    TrimSpacePadded([], s[..2], [s[2]]);
    ParseTwoDigits(s[..2]);
  }

  lemma MemberLineNumberTexts(line: string)
    requires line == Member
    ensures AtoiTrimmed(line[..1]) == Some(1)
    ensures AtoiTrimmed(line[2..3]) == Some(3)
    ensures AtoiTrimmed(line[15..17]) == Some(10)
    ensures AtoiTrimmed(line[18..21]) == Some(12)
  {
    assert line[..1][0] == line[0] == '1';
    assert line[2..3][0] == line[2] == '3';
    assert line[15..17][0] == '1' && line[15..17][1] == '0';
    assert line[18..21][0] == '1' && line[18..21][1] == '2' && line[18..21][2] == ' ';
    AtoiDigit(line[..1]);
    AtoiDigit(line[2..3]);
    AtoiTwoDigits(line[15..17]);
    AtoiTwoDigitsSpace(line[18..21]);
  }

  /** `1:3` are the obfuscated lines and `:10:12` the original ones. */
  lemma MemberNumbers(line: string)
    requires line == Member
    ensures Scannable(line)
    ensures var d := Locate(line);
      Complete(d) && d.argument2 >= 0 && ReadLineNumbers(line, d) == Numbers(LineNumbers(10, 12, 1, 3))
  {
    MemberDelimiters(line);
    MemberLineNumberTexts(line);
  }

  /**
    `line` holds the characters of `text`. The member-line lemmas below take this
    rather than `line == text`, which would let the solver unfold every search of
    the scanner on the literal and run out of resource.
  */
  predicate Spells(line: string, text: string) {
    |line| == |text| && forall i :: 0 <= i < |line| ==> line[i] == text[i]
  }

  lemma MemberDelimitersSpelled(line: string)
    requires Spells(line, Member)
    ensures Scannable(line)
    ensures Locate(line) == Delimiters(1, 3, 8, 12, 13, 14, 17, 21)
  {
    assert line == Member;
    MemberDelimiters(line);
  }

  lemma MemberTypeText(line: string)
    requires Spells(line, Member)
    ensures Scannable(line)
    ensures var d := Locate(line); Complete(d) && MemberType(line, d) == "void"
  {
    MemberDelimitersSpelled(line);
    assert line[4..8] == Member[4..8] == "void";
    TrimSpaceOfTrimmed(line[4..8]);
  }

  lemma MemberNameText(line: string)
    requires Spells(line, Member)
    ensures Scannable(line)
    ensures var d := Locate(line); Complete(d) && QualifiedMemberName(line, d) == "foo"
  {
    MemberDelimitersSpelled(line);
    assert line[9..12] == Member[9..12] == "foo";
    TrimSpaceOfTrimmed(line[9..12]);
  }

  lemma MemberNewNameText(line: string)
    requires Spells(line, Member)
    ensures Scannable(line)
    ensures var d := Locate(line); Complete(d) && NewMemberName(line, d) == "a"
  {
    MemberDelimitersSpelled(line);
    assert line[23..] == Member[23..] == [' '] + "a" + [];
    TrimSpacePadded([' '], "a", []);
  }

  lemma MemberArgumentsText(line: string)
    requires Spells(line, Member)
    ensures Scannable(line)
    ensures var d := Locate(line);
      && 0 <= d.argument1 + 1 <= d.argument2 <= |line|
      && TrimSpace(line[d.argument1 + 1..d.argument2]) == ""
  {
    MemberDelimitersSpelled(line);
    TrimSpaceOfTrimmed([]);
  }

  lemma UnqualifiedFoo(name: string)
    requires name == "foo"
    ensures SplitQualifiedName("Orig", name) == ("Orig", "foo")
  {
    assert forall i :: 0 <= i < |name| ==> name[i] != '.';
  }

  /** A member line that emits, emits the method call built from its parts. */
  lemma MethodLineEmits(className: string, line: string)
    requires Scannable(line)
    requires var d := Locate(line);
      && Complete(d) && d.argument2 >= 0 && ReadLineNumbers(line, d).Numbers?
      && MemberType(line, d) != ""
      && SplitQualifiedName(className, QualifiedMemberName(line, d)).1 != ""
      && NewMemberName(line, d) != ""
    ensures var d := Locate(line);
      var n := ReadLineNumbers(line, d).value;
      var split := SplitQualifiedName(className, QualifiedMemberName(line, d));
      ProcessClassMemberMapping(className, line) == Emitted(MethodMapping(
        split.0, n.first, n.last, MemberType(line, d), split.1,
        TrimSpace(line[d.argument1 + 1..d.argument2]),
        className, n.newFirst, n.newLast, NewMemberName(line, d)))
  {
  }

  /** Under the class `Orig`, the method line makes the method call of `foo`, renamed `a`. */
  lemma MemberCall(line: string)
    requires Spells(line, Member)
    ensures Scannable(line)
    ensures ProcessClassMemberMapping("Orig", line)
         == Emitted(MethodMapping("Orig", 10, 12, "void", "foo", "", "Orig", 1, 3, "a"))
  {
    MemberTypeText(line);
    MemberNameText(line);
    MemberNewNameText(line);
    MemberArgumentsText(line);
    assert line == Member;
    MemberNumbers(line);
    UnqualifiedFoo(QualifiedMemberName(line, Locate(line)));
    MethodLineEmits("Orig", line);
  }

  /** The comment line is skipped. */
  lemma CommentStep(st: PumpState, line: string, interested: Interest)
    requires Spells(line, Comment)
    ensures Step(st, line, interested) == st
  {
    assert line == Comment;
    TrimSpaceOfTrimmed(line);
  }

  /** The header makes `Orig` the context and makes the class call. */
  lemma HeaderStep(st: PumpState, line: string, interested: Interest)
    requires Spells(line, Header) && interested("Orig", "Obf")
    ensures Step(st, line, interested) == PumpState("Orig", st.calls + [ClassMapping("Orig", "Obf")])
  {
    assert line == Header;
    TrimSpaceOfTrimmed(line);
    HeaderCall(line, interested);
  }

  /** Trimming the indented method line leaves the method line. */
  lemma IndentedMember(line: string)
    requires Spells(line, "    " + Member)
    ensures Spells(TrimSpace(line), Member)
    ensures !IsSkipped(line) && !IsHeader(line)
  {
    var m := line[4..];
    assert line == "    " + m + "";
    assert m[0] == Member[0] && m[|m| - 1] == Member[|Member| - 1];
    TrimSpacePadded("    ", m, "");
  }

  /** Under `Orig`, the indented method line appends its method call. */
  lemma MemberStep(st: PumpState, line: string, interested: Interest)
    requires Spells(line, "    " + Member) && st.className == "Orig"
    ensures Step(st, line, interested)
         == st.(calls := st.calls + [MethodMapping("Orig", 10, 12, "void", "foo", "", "Orig", 1, 3, "a")])
  {
    IndentedMember(line);
    MemberCall(TrimSpace(line));
  }

  /** The lines of a file in this format: the comment, the header and the indented method line. */
  predicate SpellsLines(lines: seq<string>) {
    |lines| == 3 && Spells(lines[0], Comment) && Spells(lines[1], Header) && Spells(lines[2], "    " + Member)
  }

  /** Reading the file skips the comment and makes the class call, then the method call. */
  lemma PumpLines(lines: seq<string>, interested: Interest)
    requires SpellsLines(lines) && interested("Orig", "Obf")
    ensures Pump(lines, interested).calls == [
              ClassMapping("Orig", "Obf"),
              MethodMapping("Orig", 10, 12, "void", "foo", "", "Orig", 1, 3, "a")]
  {
    var s0 := PumpState("", []);
    CommentStep(s0, lines[0], interested);
    HeaderStep(s0, lines[1], interested);
    var s2 := Step(s0, lines[1], interested);
    MemberStep(s2, lines[2], interested);
    var s3 := Step(s2, lines[2], interested);
    assert lines[1..][1..][1..] == [];
    assert Pump(lines, interested) == PumpFrom(s0, lines[1..], interested);
    assert PumpFrom(s0, lines[1..], interested) == PumpFrom(s2, lines[1..][1..], interested);
    assert PumpFrom(s2, lines[1..][1..], interested) == PumpFrom(s3, [], interested);
  }

  /** The file as its text spells it. */
  lemma LinesSpelled()
    ensures SpellsLines(Lines)
  {
  }
}
