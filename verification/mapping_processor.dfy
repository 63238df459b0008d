/**
  The symbol table built from a mapping file and the remapping of one obfuscated
  frame to its candidate original frames (`FrameRemapper` in the Go code).
*/
module MappingProcessor {
  import opened Wrappers
  import opened Text
  import opened Frames
  import MappingReader

  /** An original field stored under an obfuscated field name. */
  datatype FieldInfo = FieldInfo(originalClassName: string, originalType: string, originalName: string)
  {
    /** The wanted type matches when it is the empty wildcard or equals the stored type. */
    predicate Matches(wantedType: string) {
      wantedType == "" || wantedType == originalType
    }
  }

  /** An original method stored under an obfuscated method name; 0 is the unknown line. */
  datatype MethodInfo = MethodInfo(
    obfuscatedFirstLineNumber: int,
    obfuscatedLastLineNumber: int,
    originalClassName: string,
    originalFirstLineNumber: int,
    originalLastLineNumber: int,
    originalType: string,
    originalName: string,
    originalArguments: string)
  {
    /**
      The obfuscated line is accepted when it is unknown, when the stored obfuscated
      range is unknown, or when it falls within that range; type and arguments as
      for fields, with the empty string as wildcard.
    */
    predicate Matches(obfuscatedLineNumber: int, wantedType: string, wantedArguments: string) {
      && (|| obfuscatedLineNumber == 0
          || obfuscatedLastLineNumber == 0
          || (obfuscatedFirstLineNumber <= obfuscatedLineNumber <= obfuscatedLastLineNumber))
      && (wantedType == "" || wantedType == originalType)
      && (wantedArguments == "" || wantedArguments == originalArguments)
    }
  }

  /**
    The empty string is a wildcard for the wanted type and arguments, and the line
    test only rejects a known line outside a known obfuscated range.
  */
  lemma MatchesWildcards(f: FieldInfo, m: MethodInfo, line: int, wantedType: string, wantedArguments: string)
    ensures f.Matches(wantedType) <==> wantedType in {"", f.originalType}
    ensures m.Matches(0, "", "")
    ensures m.obfuscatedFirstLineNumber <= line <= m.obfuscatedLastLineNumber ==>
      m.Matches(line, m.originalType, m.originalArguments)
    ensures (&& line != 0 && m.obfuscatedLastLineNumber != 0
             && (line < m.obfuscatedFirstLineNumber || m.obfuscatedLastLineNumber < line)) ==>
      !m.Matches(line, wantedType, wantedArguments)
  {
  }

  /**
    The symbol table: obfuscated class name to original class name, and, per
    class (keyed by the header's original class name) and obfuscated member name,
    the field entries (a set, kept as a duplicate-free sequence) and the method
    entries (insertion-ordered and duplicate-free).
  */
  datatype FrameRemapper = FrameRemapper(
    classMap: map<string, string>,
    classFieldMap: map<string, map<string, seq<FieldInfo>>>,
    classMethodMap: map<string, map<string, seq<MethodInfo>>>)

  /** `NewFrameRemapper`. */
  const EmptyRemapper := FrameRemapper(map[], map[], map[])

  /** The field entries stored under a class and obfuscated field name. */
  function Fields(t: FrameRemapper, className: string, name: string): seq<FieldInfo> {
    if className in t.classFieldMap && name in t.classFieldMap[className]
    then t.classFieldMap[className][name] else []
  }

  /** The method entries stored under a class and obfuscated method name. */
  function Methods(t: FrameRemapper, className: string, name: string): seq<MethodInfo> {
    if className in t.classMethodMap && name in t.classMethodMap[className]
    then t.classMethodMap[className][name] else []
  }

  predicate NoDuplicates<T(==)>(s: seq<T>) {
    forall i, j :: 0 <= i < j < |s| ==> s[i] != s[j]
  }

  /** Every stored collection is duplicate-free: what the Go hash sets guarantee. */
  ghost predicate Valid(t: FrameRemapper) {
    && (forall c, n :: NoDuplicates(Fields(t, c, n)))
    && (forall c, n :: NoDuplicates(Methods(t, c, n)))
  }

  /** No collection is stored under an empty class or member name. */
  ghost predicate Keyed(t: FrameRemapper) {
    && (forall c :: c in t.classFieldMap ==> c != "" && "" !in t.classFieldMap[c])
    && (forall c :: c in t.classMethodMap ==> c != "" && "" !in t.classMethodMap[c])
  }

  /** Adding to a hash set (`hashset.Add`, `linkedhashset.Add`): a present element stays where it is. */
  function AddUnique<T(==)>(s: seq<T>, x: T): (r: seq<T>)
    ensures s <= r
    ensures x in s ==> r == s
    ensures x !in s ==> r == s + [x]
    ensures x in r
    ensures NoDuplicates(s) ==> NoDuplicates(r)
  {
    if x in s then s else s + [x]
  }

  // ---------------------------------------------------------------------------
  // The processor interface

  /** Records that `newClassName` is the obfuscated name of `className`; always interested. */
  function ProcessClassMapping(t: FrameRemapper, className: string, newClassName: string)
    : (r: (FrameRemapper, bool))
    ensures r.1
    ensures GetOriginalClassName(r.0, newClassName) == className
    ensures forall n :: n != newClassName ==> GetOriginalClassName(r.0, n) == GetOriginalClassName(t, n)
    ensures r.0.classFieldMap == t.classFieldMap && r.0.classMethodMap == t.classMethodMap
  {
    (t.(classMap := t.classMap[newClassName := className]), true)
  }

  /** The interest the reader receives from this processor: every class. */
  function AlwaysInterested(className: string, newClassName: string): (r: bool)
    ensures r == ProcessClassMapping(EmptyRemapper, className, newClassName).1
  {
    true
  }

  /** Adds a field entry under the header's class and the obfuscated field name; nothing else changes. */
  function ProcessFieldMapping(
    t: FrameRemapper, className: string, fieldType: string, fieldName: string,
    newClassName: string, newFieldName: string): (r: FrameRemapper)
    ensures forall f :: f in Fields(r, newClassName, newFieldName) <==>
      f in Fields(t, newClassName, newFieldName) || f == FieldInfo(className, fieldType, fieldName)
    ensures NoDuplicates(Fields(t, newClassName, newFieldName)) ==>
      NoDuplicates(Fields(r, newClassName, newFieldName))
    ensures forall c, n :: (c, n) != (newClassName, newFieldName) ==> Fields(r, c, n) == Fields(t, c, n)
    ensures r.classMap == t.classMap && r.classMethodMap == t.classMethodMap
    ensures r.classFieldMap.Keys == t.classFieldMap.Keys + {newClassName}
    ensures newClassName in r.classFieldMap &&
      r.classFieldMap[newClassName].Keys ==
        (if newClassName in t.classFieldMap then t.classFieldMap[newClassName].Keys else {}) + {newFieldName}
    ensures forall c :: c in t.classFieldMap && c != newClassName ==> r.classFieldMap[c] == t.classFieldMap[c]
  {
    var fieldMap := if newClassName in t.classFieldMap then t.classFieldMap[newClassName] else map[];
    var fieldSet := if newFieldName in fieldMap then fieldMap[newFieldName] else [];
    var fieldSet' := AddUnique(fieldSet, FieldInfo(className, fieldType, fieldName));
    t.(classFieldMap := t.classFieldMap[newClassName := fieldMap[newFieldName := fieldSet']])
  }

  /**
    Adds a method entry under the header's class and the obfuscated method name,
    after the entries already there unless it is one of them; nothing else changes.
  */
  function ProcessMethodMapping(
    t: FrameRemapper, className: string, firstLineNumber: int, lastLineNumber: int,
    methodType: string, methodName: string, arguments: string, newClassName: string,
    newFirstLineNumber: int, newLastLineNumber: int, newMethodName: string): (r: FrameRemapper)
    ensures var info := MethodInfo(
        newFirstLineNumber, newLastLineNumber, className, firstLineNumber, lastLineNumber,
        methodType, methodName, arguments);
      var before := Methods(t, newClassName, newMethodName);
      var after := Methods(r, newClassName, newMethodName);
      && before <= after
      && (info in before ==> after == before)
      && (info !in before ==> after == before + [info])
    ensures NoDuplicates(Methods(t, newClassName, newMethodName)) ==>
      NoDuplicates(Methods(r, newClassName, newMethodName))
    ensures forall c, n :: (c, n) != (newClassName, newMethodName) ==> Methods(r, c, n) == Methods(t, c, n)
    ensures r.classMap == t.classMap && r.classFieldMap == t.classFieldMap
    ensures r.classMethodMap.Keys == t.classMethodMap.Keys + {newClassName}
    ensures newClassName in r.classMethodMap &&
      r.classMethodMap[newClassName].Keys ==
        (if newClassName in t.classMethodMap then t.classMethodMap[newClassName].Keys else {}) + {newMethodName}
    ensures forall c :: c in t.classMethodMap && c != newClassName ==> r.classMethodMap[c] == t.classMethodMap[c]
  {
    var methodMap := if newClassName in t.classMethodMap then t.classMethodMap[newClassName] else map[];
    var methodSet := if newMethodName in methodMap then methodMap[newMethodName] else [];
    var info := MethodInfo(
      newFirstLineNumber, newLastLineNumber, className, firstLineNumber, lastLineNumber,
      methodType, methodName, arguments);
    t.(classMethodMap := t.classMethodMap[newClassName := methodMap[newMethodName := AddUnique(methodSet, info)]])
  }

  /** Delivers one call of the mapping reader to this processor. */
  function Apply(t: FrameRemapper, call: MappingReader.Call): (r: FrameRemapper)
    ensures Valid(t) ==> Valid(r)
    ensures Keyed(t) && MappingReader.Keyed(call) ==> Keyed(r)
  {
    match call
    case ClassMapping(className, newClassName) =>
      var r := ProcessClassMapping(t, className, newClassName).0;
      assert forall c, n :: Fields(r, c, n) == Fields(t, c, n) && Methods(r, c, n) == Methods(t, c, n);
      r
    case FieldMapping(className, fieldType, fieldName, newClassName, newFieldName) =>
      var r := ProcessFieldMapping(t, className, fieldType, fieldName, newClassName, newFieldName);
      assert Valid(t) ==> Valid(r) by {
        if Valid(t) {
          forall c, n ensures NoDuplicates(Fields(r, c, n)) {
            if (c, n) != (newClassName, newFieldName) { assert Fields(r, c, n) == Fields(t, c, n); }
          }
          assert forall c, n :: Methods(r, c, n) == Methods(t, c, n);
        }
      }
      r
    case MethodMapping(className, first, last, methodType, methodName, arguments,
                       newClassName, newFirst, newLast, newMethodName) =>
      var r := ProcessMethodMapping(t, className, first, last, methodType, methodName, arguments,
                                    newClassName, newFirst, newLast, newMethodName);
      assert Valid(t) ==> Valid(r) by {
        if Valid(t) {
          forall c, n ensures NoDuplicates(Methods(r, c, n)) {
            if (c, n) != (newClassName, newMethodName) { assert Methods(r, c, n) == Methods(t, c, n); }
          }
          assert forall c, n :: Fields(r, c, n) == Fields(t, c, n);
        }
      }
      r
  }

  /** Delivers the calls in order. */
  function ApplyAll(t: FrameRemapper, calls: seq<MappingReader.Call>): (r: FrameRemapper)
    ensures Valid(t) ==> Valid(r)
    ensures Keyed(t) && (forall i :: 0 <= i < |calls| ==> MappingReader.Keyed(calls[i])) ==> Keyed(r)
    decreases |calls|
  {
    if |calls| == 0 then t else ApplyAll(Apply(t, calls[0]), calls[1..])
  }

  /** The symbol table of a mapping file: `Pump` into a fresh remapper. */
  function Build(lines: seq<string>): (r: FrameRemapper)
    ensures Valid(r) && Keyed(r)
  {
    var calls := MappingReader.Pump(lines, AlwaysInterested).calls;
    MappingReader.PumpFromKeyed(MappingReader.PumpState("", []), lines, AlwaysInterested);
    EmptyRemapperValid();
    ApplyAll(EmptyRemapper, calls)
  }

  lemma EmptyRemapperValid()
    ensures Valid(EmptyRemapper) && Keyed(EmptyRemapper)
  {
    assert forall c, n :: Fields(EmptyRemapper, c, n) == [] && Methods(EmptyRemapper, c, n) == [];
  }

  /** Delivering two runs of calls in turn is delivering them all. */
  lemma {:induction false} ApplyAllAppend(t: FrameRemapper, a: seq<MappingReader.Call>, b: seq<MappingReader.Call>)
    ensures ApplyAll(t, a + b) == ApplyAll(ApplyAll(t, a), b)
    decreases |a|
  {
    if |a| == 0 {
      assert a + b == b;
    } else {
      assert (a + b)[0] == a[0];
      assert (a + b)[1..] == a[1..] + b;
      ApplyAllAppend(Apply(t, a[0]), a[1..], b);
    }
  }

  /** The original class named by the last class call for `newClassName`, if there is one. */
  function LastClassFor(calls: seq<MappingReader.Call>, newClassName: string): Option<string>
    decreases |calls|
  {
    if |calls| == 0 then None
    else
      var last := calls[|calls| - 1];
      if last.ClassMapping? && last.newClassName == newClassName then Some(last.className)
      else LastClassFor(calls[..|calls| - 1], newClassName)
  }

  /** Later class mappings of the same obfuscated name override earlier ones. */
  lemma {:induction false} ApplyAllClassName(t: FrameRemapper, calls: seq<MappingReader.Call>, newClassName: string)
    ensures GetOriginalClassName(ApplyAll(t, calls), newClassName)
         == LastClassFor(calls, newClassName).GetOr(GetOriginalClassName(t, newClassName))
    decreases |calls|
  {
    if |calls| > 0 {
      var front := calls[..|calls| - 1];
      var last := calls[|calls| - 1];
      assert calls == front + [last];
      ApplyAllAppend(t, front, [last]);
      assert ApplyAll(ApplyAll(t, front), [last]) == Apply(ApplyAll(t, front), last);
      ApplyAllClassName(t, front, newClassName);
    }
  }

  /** The field entry a field call describes. */
  function FieldInfoOf(call: MappingReader.Call): FieldInfo
    requires call.FieldMapping?
  {
    FieldInfo(call.className, call.fieldType, call.fieldName)
  }

  /** The method entry a method call describes. */
  function MethodInfoOf(call: MappingReader.Call): MethodInfo
    requires call.MethodMapping?
  {
    MethodInfo(
      call.newFirstLineNumber, call.newLastLineNumber, call.className,
      call.firstLineNumber, call.lastLineNumber, call.methodType, call.methodName, call.arguments)
  }

  /** Stored entries are never lost, and method entries keep their order. */
  lemma {:induction false} ApplyAllGrows(t: FrameRemapper, calls: seq<MappingReader.Call>, c: string, n: string)
    ensures forall f :: f in Fields(t, c, n) ==> f in Fields(ApplyAll(t, calls), c, n)
    ensures Methods(t, c, n) <= Methods(ApplyAll(t, calls), c, n)
    decreases |calls|
  {
    if |calls| > 0 {
      var next := Apply(t, calls[0]);
      assert forall f :: f in Fields(t, c, n) ==> f in Fields(next, c, n);
      assert Methods(t, c, n) <= Methods(next, c, n);
      ApplyAllGrows(next, calls[1..], c, n);
    }
  }

  /** Every field call leaves its entry under its class and obfuscated name. */
  lemma {:induction false} ApplyAllStoresField(t: FrameRemapper, calls: seq<MappingReader.Call>, i: int)
    requires 0 <= i < |calls| && calls[i].FieldMapping?
    ensures FieldInfoOf(calls[i]) in Fields(ApplyAll(t, calls), calls[i].newClassName, calls[i].newFieldName)
  {
    var call := calls[i];
    var front := calls[..i];
    assert calls == front + [call] + calls[i + 1..];
    ApplyAllAppend(t, front + [call], calls[i + 1..]);
    ApplyAllAppend(t, front, [call]);
    var before := ApplyAll(t, front);
    assert ApplyAll(before, [call]) == Apply(before, call);
    assert FieldInfoOf(call) in Fields(Apply(before, call), call.newClassName, call.newFieldName);
    ApplyAllGrows(Apply(before, call), calls[i + 1..], call.newClassName, call.newFieldName);
  }

  /** Every method call leaves its entry under its class and obfuscated name. */
  lemma {:induction false} ApplyAllStoresMethod(t: FrameRemapper, calls: seq<MappingReader.Call>, i: int)
    requires 0 <= i < |calls| && calls[i].MethodMapping?
    ensures MethodInfoOf(calls[i]) in Methods(ApplyAll(t, calls), calls[i].newClassName, calls[i].newMethodName)
  {
    var call := calls[i];
    var front := calls[..i];
    assert calls == front + [call] + calls[i + 1..];
    ApplyAllAppend(t, front + [call], calls[i + 1..]);
    ApplyAllAppend(t, front, [call]);
    var before := ApplyAll(t, front);
    assert ApplyAll(before, [call]) == Apply(before, call);
    assert MethodInfoOf(call) in Methods(Apply(before, call), call.newClassName, call.newMethodName);
    ApplyAllGrows(Apply(before, call), calls[i + 1..], call.newClassName, call.newMethodName);
  }

  // ---------------------------------------------------------------------------
  // Name resolution

  /** The original name of an obfuscated class, or the name itself when it is not mapped. */
  function GetOriginalClassName(t: FrameRemapper, obfuscatedClassName: string): (r: string)
    ensures obfuscatedClassName in t.classMap ==> r == t.classMap[obfuscatedClassName]
    ensures obfuscatedClassName !in t.classMap ==> r == obfuscatedClassName
  {
    if obfuscatedClassName in t.classMap then t.classMap[obfuscatedClassName] else obfuscatedClassName
  }

  /** The original of a type: only the part before the first `[` is resolved. */
  function GetOriginalType(t: FrameRemapper, obfuscatedType: string): (r: string)
    ensures '[' !in obfuscatedType ==> r == GetOriginalClassName(t, obfuscatedType)
  {
    var index := IndexOf(obfuscatedType, "[", 0);
    if index >= 0 then
      OccursAtChar(obfuscatedType, '[', index);
      GetOriginalClassName(t, obfuscatedType[0..index]) + obfuscatedType[index..]
    else
      assert '[' !in obfuscatedType by {
        forall i | 0 <= i < |obfuscatedType| ensures obfuscatedType[i] != '[' {
          OccursAtChar(obfuscatedType, '[', i);
        }
      }
      GetOriginalClassName(t, obfuscatedType)
  }

  /** An array type keeps its `[]` suffixes and has its element class resolved. */
  lemma OriginalArrayType(t: FrameRemapper, base: string, suffix: string)
    requires '[' !in base
    requires |suffix| > 0 && suffix[0] == '['
    ensures GetOriginalType(t, base + suffix) == GetOriginalClassName(t, base) + suffix
  {
    var s := base + suffix;
    OccursAtChar(s, '[', |base|);
    forall i | 0 <= i < |base| ensures !OccursAt(s, "[", i) {
      OccursAtChar(s, '[', i);
      assert s[i] == base[i];
    }
    assert IndexOf(s, "[", 0) == |base|;
    assert s[..|base|] == base && s[|base|..] == suffix;
  }

  /** Each comma-separated element of an argument list, trimmed and resolved as a type. */
  function ResolveEach(t: FrameRemapper, elements: seq<string>): (r: seq<string>)
    ensures |r| == |elements|
    ensures forall i :: 0 <= i < |r| ==> r[i] == GetOriginalType(t, TrimSpace(elements[i]))
  {
    seq(|elements|, i requires 0 <= i < |elements| => GetOriginalType(t, TrimSpace(elements[i])))
  }

  /**
    The original argument list. When no resolved element holds a comma, the result
    splits back into exactly those elements, one for each element of the input.
  */
  function GetOriginalArguments(t: FrameRemapper, obfuscatedArguments: string): (r: string)
    ensures var resolved := ResolveEach(t, Split(obfuscatedArguments, ','));
      (forall i :: 0 <= i < |resolved| ==> ',' !in resolved[i]) ==> Split(r, ',') == resolved
  {
    var resolved := ResolveEach(t, Split(obfuscatedArguments, ','));
    if forall i :: 0 <= i < |resolved| ==> ',' !in resolved[i] then
      SplitJoin(resolved, ',');
      Join(resolved, ',')
    else
      Join(resolved, ',')
  }

  /**
    An empty type or argument list, the wildcard of the match predicates, stays
    empty after resolution as long as no class is mapped from the empty name.
  */
  lemma WildcardResolvesToWildcard(t: FrameRemapper)
    requires "" !in t.classMap
    ensures GetOriginalType(t, "") == ""
    ensures GetOriginalArguments(t, "") == ""
  {
    assert Split("", ',') == [""];
    assert TrimSpace("") == "";
    assert ResolveEach(t, [""]) == [""];
    assert Join([""], ',') == "";
  }

  /** The part of a class name after its last dot. */
  function AfterLastDot(className: string): (r: string)
    ensures '.' !in r
    ensures |r| <= |className| && r == className[|className| - |r|..]
    ensures |r| < |className| ==> className[|className| - |r| - 1] == '.'
  {
    className[LastIndexOfChar(className, '.') + 1..]
  }

  /**
    `getSourceFileName`: the simple name of the class with `.java` appended, or, for
    an inner class, the text before the first `$` of the simple name. A `$` at the
    very start of an undotted name does not count.
  */
  function GetSourceFileName(className: string): (r: string)
    ensures className == "" ==> r == ""
    ensures className != "" ==>
      var simple := AfterLastDot(className);
      if '$' in simple && (|simple| < |className| || simple[0] != '$')
      then r + "$" <= simple && '$' !in r
      else r == simple + ".java"
  {
    if |className| == 0 then className
    else
      var index1 := LastIndexOfChar(className, '.') + 1;
      var index2 := IndexOf(className, "$", index1);
      var simple := className[index1..];
      assert simple == AfterLastDot(className);
      if index2 > 0 then
        OccursAtChar(className, '$', index2);
        var r := className[index1..index2];
        assert forall i :: 0 <= i < |r| ==> r[i] == className[index1 + i] && r[i] != '$' by {
          forall i | 0 <= i < |r| ensures r[i] == className[index1 + i] && r[i] != '$' {
            OccursAtChar(className, '$', index1 + i);
          }
        }
        assert simple[index2 - index1] == '$';
        assert (r + "$") == simple[..index2 - index1 + 1];
        r
      else
        assert '$' in simple ==> index1 == 0 && simple[0] == '$' by {
          if '$' in simple {
            var k :| 0 <= k < |simple| && simple[k] == '$';
            OccursAtChar(className, '$', index1 + k);
            OccursAtChar(className, '$', index2);
          }
        }
        className[index1..] + ".java"
  }

  /** The documented example: a top-level class `a.b.C` lives in `C.java`. */
  lemma SourceFileNameExamples()
    ensures GetSourceFileName("a.b.C") == "C.java"
    ensures GetSourceFileName("a.b.C$D") == "C"
    ensures GetSourceFileName("") == ""
  {
    assert AfterLastDot("a.b.C") == "C";
    assert AfterLastDot("a.b.C$D") == "C$D";
  }

  // ---------------------------------------------------------------------------
  // Transform

  /** The candidate frame for a stored field: the frame's line, method and arguments are kept. */
  function FieldFrame(info: FieldInfo, frame: FrameInfo): FrameInfo {
    FrameInfo(
      info.originalClassName, GetSourceFileName(info.originalClassName), frame.lineNumber,
      info.originalType, info.originalName, frame.methodName, frame.arguments)
  }

  /** The candidate frames of the matching stored fields, in the order they are stored. */
  function FieldCandidates(fields: seq<FieldInfo>, frame: FrameInfo, originalType: string)
    : (r: seq<FrameInfo>)
    ensures |r| <= |fields|
    ensures forall i :: 0 <= i < |r| ==>
      && r[i].lineNumber == frame.lineNumber
      && r[i].methodName == frame.methodName
      && r[i].arguments == frame.arguments
    decreases |fields|
  {
    if |fields| == 0 then []
    else
      var rest := FieldCandidates(fields[1..], frame, originalType);
      if fields[0].Matches(originalType) then [FieldFrame(fields[0], frame)] + rest else rest
  }

  /** Every stored field that matches the wanted type yields its candidate. */
  lemma {:induction false} FieldCandidatesComplete(
    fields: seq<FieldInfo>, frame: FrameInfo, originalType: string, f: FieldInfo)
    requires f in fields && f.Matches(originalType)
    ensures FieldFrame(f, frame) in FieldCandidates(fields, frame, originalType)
    decreases |fields|
  {
    if fields[0] != f {
      assert f in fields[1..];
      FieldCandidatesComplete(fields[1..], frame, originalType, f);
    }
  }

  /** Every candidate comes from a stored field that matches the wanted type. */
  lemma {:induction false} FieldCandidatesSound(
    fields: seq<FieldInfo>, frame: FrameInfo, originalType: string, c: FrameInfo)
    requires c in FieldCandidates(fields, frame, originalType)
    ensures exists f :: f in fields && f.Matches(originalType) && c == FieldFrame(f, frame)
    decreases |fields|
  {
    var rest := FieldCandidates(fields[1..], frame, originalType);
    if fields[0].Matches(originalType) && c == FieldFrame(fields[0], frame) {
    } else {
      assert c in rest;
      FieldCandidatesSound(fields[1..], frame, originalType, c);
      var f :| f in fields[1..] && f.Matches(originalType) && c == FieldFrame(f, frame);
      assert f in fields;
    }
  }

  /**
    `transformFieldInfo`: the fields stored under the resolved class and the frame's
    field name, filtered by the frame's resolved type.
  */
  function TransformFieldInfo(t: FrameRemapper, frame: FrameInfo, originalClassName: string)
    : (r: seq<FrameInfo>)
    ensures r == FieldCandidates(
      Fields(t, originalClassName, frame.fieldName), frame, GetOriginalType(t, frame.typeName))
  {
    if originalClassName !in t.classFieldMap then []
    else
      var fieldMap := t.classFieldMap[originalClassName];
      if frame.fieldName !in fieldMap then []
      else FieldCandidates(fieldMap[frame.fieldName], frame, GetOriginalType(t, frame.typeName))
  }

  /**
    The line number of a method candidate. Kept when the original and obfuscated
    ranges start at the same line; shifted by their difference when the original
    range is a genuine multi-line range and both the range start and the frame's
    line are known; otherwise pinned to the original first line.
  */
  function AdjustLineNumber(info: MethodInfo, lineNumber: int): (r: int)
    ensures info.originalFirstLineNumber == info.obfuscatedFirstLineNumber ==> r == lineNumber
    ensures info.originalFirstLineNumber != info.obfuscatedFirstLineNumber ==>
      if && info.originalLastLineNumber != 0
         && info.originalLastLineNumber != info.originalFirstLineNumber
         && info.obfuscatedFirstLineNumber != 0
         && lineNumber != 0
      then r - lineNumber == info.originalFirstLineNumber - info.obfuscatedFirstLineNumber
      else r == info.originalFirstLineNumber
  {
    var result := lineNumber;
    if info.originalFirstLineNumber != info.obfuscatedFirstLineNumber then
      if && info.originalLastLineNumber != 0
         && info.originalLastLineNumber != info.originalFirstLineNumber
         && info.obfuscatedFirstLineNumber != 0
         && result != 0
      then info.originalFirstLineNumber - info.obfuscatedFirstLineNumber + result
      else info.originalFirstLineNumber
    else result
  }

  /**
    A known line inside the obfuscated range of an entry whose two ranges have the
    same length lands inside the original range.
  */
  lemma AdjustedLineInOriginalRange(info: MethodInfo, lineNumber: int)
    requires info.obfuscatedFirstLineNumber > 0 && info.originalFirstLineNumber > 0
    requires info.obfuscatedFirstLineNumber <= lineNumber <= info.obfuscatedLastLineNumber
    requires info.originalLastLineNumber - info.originalFirstLineNumber
          == info.obfuscatedLastLineNumber - info.obfuscatedFirstLineNumber
    ensures info.originalFirstLineNumber <= AdjustLineNumber(info, lineNumber) <= info.originalLastLineNumber
  {
  }

  /** The candidate frame for a stored method: the frame's field name is kept. */
  function MethodFrame(info: MethodInfo, frame: FrameInfo): FrameInfo {
    FrameInfo(
      info.originalClassName, GetSourceFileName(info.originalClassName),
      AdjustLineNumber(info, frame.lineNumber), info.originalType, frame.fieldName,
      info.originalName, info.originalArguments)
  }

  /** The candidate frames of the matching stored methods, in stored order. */
  function MethodCandidates(
    methods: seq<MethodInfo>, frame: FrameInfo, originalType: string, originalArguments: string)
    : (r: seq<FrameInfo>)
    ensures |r| <= |methods|
    ensures forall i :: 0 <= i < |r| ==> r[i].fieldName == frame.fieldName
    decreases |methods|
  {
    if |methods| == 0 then []
    else
      var rest := MethodCandidates(methods[1..], frame, originalType, originalArguments);
      if methods[0].Matches(frame.lineNumber, originalType, originalArguments)
      then [MethodFrame(methods[0], frame)] + rest
      else rest
  }

  /** Every stored method that matches yields its candidate. */
  lemma {:induction false} MethodCandidatesComplete(
    methods: seq<MethodInfo>, frame: FrameInfo, originalType: string, originalArguments: string, m: MethodInfo)
    requires m in methods && m.Matches(frame.lineNumber, originalType, originalArguments)
    ensures MethodFrame(m, frame) in MethodCandidates(methods, frame, originalType, originalArguments)
    decreases |methods|
  {
    if methods[0] != m {
      assert m in methods[1..];
      MethodCandidatesComplete(methods[1..], frame, originalType, originalArguments, m);
    }
  }

  /** Every candidate comes from a stored method that matches. */
  lemma {:induction false} MethodCandidatesSound(
    methods: seq<MethodInfo>, frame: FrameInfo, originalType: string, originalArguments: string, c: FrameInfo)
    requires c in MethodCandidates(methods, frame, originalType, originalArguments)
    ensures exists m :: m in methods && m.Matches(frame.lineNumber, originalType, originalArguments)
                     && c == MethodFrame(m, frame)
    decreases |methods|
  {
    var rest := MethodCandidates(methods[1..], frame, originalType, originalArguments);
    if methods[0].Matches(frame.lineNumber, originalType, originalArguments) && c == MethodFrame(methods[0], frame) {
    } else {
      assert c in rest;
      MethodCandidatesSound(methods[1..], frame, originalType, originalArguments, c);
      var m :| m in methods[1..] && m.Matches(frame.lineNumber, originalType, originalArguments)
             && c == MethodFrame(m, frame);
      assert m in methods;
    }
  }

  /**
    Candidates follow the stored order: those of an earlier part of the stored
    sequence come before those of a later part.
  */
  lemma {:induction false} MethodCandidatesAppend(
    a: seq<MethodInfo>, b: seq<MethodInfo>, frame: FrameInfo, originalType: string, originalArguments: string)
    ensures MethodCandidates(a + b, frame, originalType, originalArguments)
         == MethodCandidates(a, frame, originalType, originalArguments)
          + MethodCandidates(b, frame, originalType, originalArguments)
    decreases |a|
  {
    if |a| == 0 {
      assert a + b == b;
    } else {
      assert (a + b)[0] == a[0];
      assert (a + b)[1..] == a[1..] + b;
      MethodCandidatesAppend(a[1..], b, frame, originalType, originalArguments);
    }
  }

  /** One stored method gives its candidate exactly when it matches. */
  lemma MethodCandidatesSingle(m: MethodInfo, frame: FrameInfo, originalType: string, originalArguments: string)
    ensures MethodCandidates([m], frame, originalType, originalArguments)
         == (if m.Matches(frame.lineNumber, originalType, originalArguments) then [MethodFrame(m, frame)] else [])
  {
    assert [m][1..] == [];
  }

  /**
    `transformMethodInfo`: the methods stored under the resolved class and the
    frame's method name, filtered by line, resolved type and resolved arguments.
  */
  function TransformMethodInfo(t: FrameRemapper, frame: FrameInfo, originalClassName: string)
    : (r: seq<FrameInfo>)
    ensures r == MethodCandidates(
      Methods(t, originalClassName, frame.methodName), frame,
      GetOriginalType(t, frame.typeName), GetOriginalArguments(t, frame.arguments))
  {
    if originalClassName !in t.classMethodMap then []
    else
      var methodMap := t.classMethodMap[originalClassName];
      if frame.methodName !in methodMap then []
      else
        MethodCandidates(
          methodMap[frame.methodName], frame,
          GetOriginalType(t, frame.typeName), GetOriginalArguments(t, frame.arguments))
  }

  /** The field candidates of a frame, looked up under its resolved class. */
  function FieldFrames(t: FrameRemapper, frame: FrameInfo): seq<FrameInfo> {
    TransformFieldInfo(t, frame, GetOriginalClassName(t, frame.className))
  }

  /** The method candidates of a frame, looked up under its resolved class. */
  function MethodFrames(t: FrameRemapper, frame: FrameInfo): seq<FrameInfo> {
    TransformMethodInfo(t, frame, GetOriginalClassName(t, frame.className))
  }

  /**
    The frame used when nothing could be remapped: its class is resolved and, when
    it names no source file, one is derived from the resolved class. (The two
    sentinel source-file texts the code also tests for are never empty, so those
    tests do not change the outcome.)
  */
  function PassThrough(t: FrameRemapper, frame: FrameInfo): (r: FrameInfo)
    ensures r == frame.(className := GetOriginalClassName(t, frame.className),
                        sourceFile := if frame.sourceFile == ""
                                      then GetSourceFileName(GetOriginalClassName(t, frame.className))
                                      else frame.sourceFile)
  {
    var originalClassName := GetOriginalClassName(t, frame.className);
    var sourceFile :=
      if |frame.sourceFile| == 0 && frame.sourceFile != "Unknown Source" && frame.sourceFile != "Native Method"
      then GetSourceFileName(originalClassName)
      else frame.sourceFile;
    FrameInfo(originalClassName, sourceFile, frame.lineNumber, frame.typeName,
              frame.fieldName, frame.methodName, frame.arguments)
  }

  /**
    `Transform`: the field candidates, then the method candidates; when there are
    none, the pass-through frame alone.
  */
  function Transform(t: FrameRemapper, frame: FrameInfo): (r: seq<FrameInfo>)
    ensures |r| > 0
    ensures |FieldFrames(t, frame)| + |MethodFrames(t, frame)| == 0 ==> r == [PassThrough(t, frame)]
    ensures |FieldFrames(t, frame)| + |MethodFrames(t, frame)| > 0 ==>
      r == FieldFrames(t, frame) + MethodFrames(t, frame)
  {
    var originalClassName := GetOriginalClassName(t, frame.className);
    var frames := TransformFieldInfo(t, frame, originalClassName)
                + TransformMethodInfo(t, frame, originalClassName);
    if |frames| == 0 then [PassThrough(t, frame)] else frames
  }

  /** Every stored method that matches the frame appears among its candidates. */
  lemma TransformFindsMethod(t: FrameRemapper, frame: FrameInfo, m: MethodInfo)
    requires m in Methods(t, GetOriginalClassName(t, frame.className), frame.methodName)
    requires m.Matches(frame.lineNumber, GetOriginalType(t, frame.typeName), GetOriginalArguments(t, frame.arguments))
    ensures MethodFrame(m, frame) in Transform(t, frame)
  {
    MethodCandidatesComplete(
      Methods(t, GetOriginalClassName(t, frame.className), frame.methodName), frame,
      GetOriginalType(t, frame.typeName), GetOriginalArguments(t, frame.arguments), m);
    assert MethodFrame(m, frame) in MethodFrames(t, frame);
  }

  /** Every stored field that matches the frame appears among its candidates. */
  lemma TransformFindsField(t: FrameRemapper, frame: FrameInfo, f: FieldInfo)
    requires f in Fields(t, GetOriginalClassName(t, frame.className), frame.fieldName)
    requires f.Matches(GetOriginalType(t, frame.typeName))
    ensures FieldFrame(f, frame) in Transform(t, frame)
  {
    FieldCandidatesComplete(
      Fields(t, GetOriginalClassName(t, frame.className), frame.fieldName), frame,
      GetOriginalType(t, frame.typeName), f);
    assert FieldFrame(f, frame) in FieldFrames(t, frame);
  }
}

module MappingProcessorExamples {
  import opened Frames
  import opened MappingProcessor
  import opened Text
  import MappingReader
  import MappingReaderExamples

  /** A mapped class with no members: the frame passes through with a derived source file. */
  lemma ClassOnlyExample()
    ensures Transform(ProcessClassMapping(EmptyRemapper, "a.b.C", "x").0, EmptyFrame.(className := "x"))
         == [EmptyFrame.(className := "a.b.C", sourceFile := "C.java")]
  {
    var t := ProcessClassMapping(EmptyRemapper, "a.b.C", "x").0;
    var frame := EmptyFrame.(className := "x");
    assert GetOriginalClassName(t, "x") == "a.b.C";
    assert FieldFrames(t, frame) == [] && MethodFrames(t, frame) == [];
    SourceFileNameExamples();
  }

  /** The symbol table of a class mapping `Orig -> Obf` and one method line under it. */
  lemma MethodExampleTable(t: FrameRemapper)
    requires t == ApplyAll(EmptyRemapper, [
              MappingReader.ClassMapping("Orig", "Obf"),
              MappingReader.MethodMapping("Orig", 10, 12, "void", "foo", "", "Orig", 1, 3, "a")])
    ensures t.classMap == map["Obf" := "Orig"]
    ensures Fields(t, "Orig", "") == []
    ensures Methods(t, "Orig", "a") == [MethodInfo(1, 3, "Orig", 10, 12, "void", "foo", "")]
  {
    var classCall := MappingReader.ClassMapping("Orig", "Obf");
    var methodCall := MappingReader.MethodMapping("Orig", 10, 12, "void", "foo", "", "Orig", 1, 3, "a");
    var t1 := Apply(EmptyRemapper, classCall);
    assert [classCall, methodCall][1..] == [methodCall];
    assert [methodCall][1..] == [];
    assert t == Apply(t1, methodCall);
    assert Methods(t1, "Orig", "a") == [];
  }

  /** The candidates of the frame `Obf.a` at line 2 in a table holding that one method. */
  lemma MethodExampleCandidates(t: FrameRemapper, frame: FrameInfo)
    requires t.classMap == map["Obf" := "Orig"]
    requires Fields(t, "Orig", "") == []
    requires Methods(t, "Orig", "a") == [MethodInfo(1, 3, "Orig", 10, 12, "void", "foo", "")]
    requires frame == EmptyFrame.(className := "Obf", methodName := "a", lineNumber := 2)
    ensures FieldFrames(t, frame) == []
    ensures MethodFrames(t, frame) == [FrameInfo("Orig", "Orig.java", 11, "void", "", "foo", "")]
  {
    WildcardResolvesToWildcard(t);
    var info := MethodInfo(1, 3, "Orig", 10, 12, "void", "foo", "");
    assert GetOriginalClassName(t, "Obf") == "Orig";
    MethodCandidatesSingle(info, frame, "", "");
    assert MethodFrames(t, frame) == [MethodFrame(info, frame)];
    MethodExampleFrame(info, frame);
  }

  lemma MethodExampleFrame(info: MethodInfo, frame: FrameInfo)
    requires info == MethodInfo(1, 3, "Orig", 10, 12, "void", "foo", "")
    requires frame == EmptyFrame.(className := "Obf", methodName := "a", lineNumber := 2)
    ensures MethodFrame(info, frame) == FrameInfo("Orig", "Orig.java", 11, "void", "", "foo", "")
  {
    assert AdjustLineNumber(info, 2) == 11;
    OrigSourceFile();
  }

  lemma OrigSourceFile()
    ensures GetSourceFileName("Orig") == "Orig.java"
  {
    assert AfterLastDot("Orig") == "Orig";
    assert '$' !in "Orig";
  }

  /** Line 2 of the obfuscated range 1:3 maps to line 11 of the original range 10:12. */
  lemma MethodLineExample(t: FrameRemapper)
    requires t == ApplyAll(EmptyRemapper, [
              MappingReader.ClassMapping("Orig", "Obf"),
              MappingReader.MethodMapping("Orig", 10, 12, "void", "foo", "", "Orig", 1, 3, "a")])
    ensures Transform(t, EmptyFrame.(className := "Obf", methodName := "a", lineNumber := 2))
         == [FrameInfo("Orig", "Orig.java", 11, "void", "", "foo", "")]
  {
    MethodExampleTable(t);
    var frame := EmptyFrame.(className := "Obf", methodName := "a", lineNumber := 2);
    MethodExampleCandidates(t, frame);
    assert FieldFrames(t, frame) + MethodFrames(t, frame) == [FrameInfo("Orig", "Orig.java", 11, "void", "", "foo", "")];
  }

  /**
    The same table read from text: a comment, the header `Orig -> Obf:` and the
    method line `1:3:void foo():10:12 -> a`, indented.
  */
  lemma MethodLineFromText(lines: seq<string>)
    requires MappingReaderExamples.SpellsLines(lines)
    ensures Transform(Build(lines), EmptyFrame.(className := "Obf", methodName := "a", lineNumber := 2))
         == [FrameInfo("Orig", "Orig.java", 11, "void", "", "foo", "")]
  {
    MappingReaderExamples.PumpLines(lines, AlwaysInterested);
    MethodLineExample(Build(lines));
  }
}
