/**
  The subset of Go's `strings` package the retrace core relies on, over strings
  modelled as sequences of characters (a Go byte offset becomes a character offset).
*/
module Text {

  /** Go's `unicode.IsSpace`: the Latin-1 spaces plus the Unicode White_Space code points. */
  predicate IsSpace(c: char) {
    c == ' ' || (9 <= c as int <= 13) || c as int == 0x85 || c as int == 0xA0
    || c as int == 0x1680 || (0x2000 <= c as int <= 0x200A)
    || c as int == 0x2028 || c as int == 0x2029 || c as int == 0x202F
    || c as int == 0x205F || c as int == 0x3000
  }

  /** Number of white-space characters at the start of `s`. */
  function LeadingSpaces(s: string): (n: nat)
    ensures n <= |s|
    ensures forall i :: 0 <= i < n ==> IsSpace(s[i])
    ensures n < |s| ==> !IsSpace(s[n])
  {
    if |s| == 0 || !IsSpace(s[0]) then 0 else 1 + LeadingSpaces(s[1..])
  }

  /** Number of white-space characters at the end of `s`. */
  function TrailingSpaces(s: string): (n: nat)
    ensures n <= |s|
    ensures forall i :: |s| - n <= i < |s| ==> IsSpace(s[i])
    ensures n < |s| ==> !IsSpace(s[|s| - n - 1])
  {
    if |s| == 0 || !IsSpace(s[|s| - 1]) then 0 else 1 + TrailingSpaces(s[..|s| - 1])
  }

  /** Go's `strings.TrimSpace`. */
  function TrimSpace(s: string): (r: string)
    ensures LeadingSpaces(s) + |r| <= |s|
    ensures r == s[LeadingSpaces(s)..LeadingSpaces(s) + |r|]
    ensures |r| == 0 || (!IsSpace(r[0]) && !IsSpace(r[|r| - 1]))
    // only white space is dropped, on either side
    ensures forall i :: 0 <= i < |s| && !IsSpace(s[i]) ==> LeadingSpaces(s) <= i < LeadingSpaces(s) + |r|
  {
    var lead := LeadingSpaces(s);
    var rest := s[lead..];
    rest[..|rest| - TrailingSpaces(rest)]
  }

  /** A string without white space at either end is its own trimming. */
  lemma TrimSpaceOfTrimmed(s: string)
    requires |s| == 0 || (!IsSpace(s[0]) && !IsSpace(s[|s| - 1]))
    ensures TrimSpace(s) == s
  {
  }

  /** White space added at either end of a string is trimmed away again. */
  lemma TrimSpacePadded(p: string, s: string, q: string)
    requires forall i :: 0 <= i < |p| ==> IsSpace(p[i])
    requires forall i :: 0 <= i < |q| ==> IsSpace(q[i])
    requires |s| == 0 || (!IsSpace(s[0]) && !IsSpace(s[|s| - 1]))
    ensures TrimSpace(p + s + q) == s
  {
    var t := p + s + q;
    var r := TrimSpace(t);
    var lead := LeadingSpaces(t);
    if |s| == 0 {
      assert forall i :: 0 <= i < |t| ==> IsSpace(t[i]) by {
        forall i | 0 <= i < |t| ensures IsSpace(t[i]) {
          if i < |p| { assert t[i] == p[i]; } else { assert t[i] == q[i - |p|]; }
        }
      }
    } else {
      assert t[|p|] == s[0];
      assert t[|p| + |s| - 1] == s[|s| - 1];
      assert forall i :: 0 <= i < |p| ==> t[i] == p[i];
      assert forall i :: |p| + |s| <= i < |t| ==> t[i] == q[i - |p| - |s|];
      assert lead == |p|;
      assert lead + |r| == |p| + |s|;
      assert r == t[|p|..|p| + |s|];
    }
  }

  /** `sub` occurs in `s` at offset `i`. */
  predicate OccursAt(s: string, sub: string, i: int) {
    0 <= i && i + |sub| <= |s| && s[i..i + |sub|] == sub
  }

  /** A one-character pattern occurs exactly where that character stands. */
  lemma OccursAtChar(s: string, c: char, i: int)
    ensures OccursAt(s, [c], i) <==> 0 <= i < |s| && s[i] == c
  {
    if 0 <= i < |s| && s[i] == c {
      assert s[i..i + 1] == [c];
    }
  }

  /**
    The `IndexOf` helper of the mapping reader: `strings.Index(s[position:], sub)`
    shifted back to an offset into `s`, or -1. Slicing `s[position:]` demands
    `position <= len(s)`.
  */
  function IndexOf(s: string, sub: string, position: int): (r: int)
    requires 0 <= position <= |s|
    ensures r == -1 || (position <= r && OccursAt(s, sub, r))
    ensures r == -1 ==> forall i :: position <= i ==> !OccursAt(s, sub, i)
    ensures r != -1 ==> forall i :: position <= i < r ==> !OccursAt(s, sub, i)
    decreases |s| - position
  {
    if OccursAt(s, sub, position) then position
    else if position == |s| then -1
    else IndexOf(s, sub, position + 1)
  }

  /** Go's `strings.Index` for a one-character pattern: the first position of `c`, or -1. */
  function IndexOfChar(s: string, c: char): (r: int)
    ensures -1 <= r < |s|
    ensures r >= 0 ==> s[r] == c
  {
    IndexOfCharFrom(s, c, 0)
  }

  /** The first position at or after `position` holding `c`, or -1. */
  function IndexOfCharFrom(s: string, c: char, position: nat): (r: int)
    requires position <= |s|
    ensures r == -1 || (position <= r < |s| && s[r] == c)
    decreases |s| - position
  {
    if position == |s| then -1
    else if s[position] == c then position
    else IndexOfCharFrom(s, c, position + 1)
  }

  /** No position before the one found, or none at all when -1, holds `c`. */
  lemma {:induction false} IndexOfCharFromLeast(s: string, c: char, position: nat, i: int)
    requires position <= i < |s| && s[i] == c
    ensures IndexOfCharFrom(s, c, position) != -1 && IndexOfCharFrom(s, c, position) <= i
    decreases |s| - position
  {
    if position < i && s[position] != c {
      IndexOfCharFromLeast(s, c, position + 1, i);
    }
  }

  /** `IndexOfChar` finds the first occurrence. */
  lemma IndexOfCharLeast(s: string, c: char)
    ensures forall i :: 0 <= i < |s| && s[i] == c ==> IndexOfChar(s, c) != -1 && IndexOfChar(s, c) <= i
  {
    forall i | 0 <= i < |s| && s[i] == c ensures IndexOfChar(s, c) != -1 && IndexOfChar(s, c) <= i {
      IndexOfCharFromLeast(s, c, 0, i);
    }
  }

  /** The one-character search agrees with the general substring search. */
  lemma IndexOfCharIsIndexOf(s: string, c: char)
    ensures IndexOfChar(s, c) == IndexOf(s, [c], 0)
  {
    var r := IndexOf(s, [c], 0);
    if r >= 0 {
      OccursAtChar(s, c, r);
    }
    IndexOfCharLeast(s, c);
    forall i | 0 <= i < |s| && s[i] == c ensures r != -1 && r <= i {
      OccursAtChar(s, c, i);
    }
  }

  /** Go's `strings.LastIndex` for a one-character pattern. */
  function LastIndexOfChar(s: string, c: char): (r: int)
    ensures -1 <= r < |s|
    ensures r >= 0 ==> s[r] == c
    ensures forall i :: r < i < |s| ==> s[i] != c
  {
    if |s| == 0 then -1
    else if s[|s| - 1] == c then |s| - 1
    else LastIndexOfChar(s[..|s| - 1], c)
  }

  /** Go's `strings.ReplaceAll` for one-character patterns. */
  function ReplaceChar(s: string, from: char, to: char): (r: string)
    ensures |r| == |s|
    ensures forall i :: 0 <= i < |s| ==> r[i] == (if s[i] == from then to else s[i])
  {
    seq(|s|, i requires 0 <= i < |s| => if s[i] == from then to else s[i])
  }

  /** Go's `strings.Join` with a one-character separator. */
  function Join(parts: seq<string>, sep: char): string
  {
    if |parts| == 0 then ""
    else if |parts| == 1 then parts[0]
    else parts[0] + [sep] + Join(parts[1..], sep)
  }

  /** Go's `strings.Split` with a one-character separator: `Join` undoes it. */
  function Split(s: string, sep: char): (r: seq<string>)
    ensures |r| >= 1
    ensures forall i :: 0 <= i < |r| ==> sep !in r[i]
    ensures Join(r, sep) == s
    decreases |s|
  {
    var k := IndexOf(s, [sep], 0);
    if k < 0 then
      assert forall i :: 0 <= i < |s| ==> s[i] != sep by {
        forall i | 0 <= i < |s| ensures s[i] != sep { OccursAtChar(s, sep, i); }
      }
      [s]
    else
      OccursAtChar(s, sep, k);
      assert forall i :: 0 <= i < k ==> s[i] != sep by {
        forall i | 0 <= i < k ensures s[i] != sep { OccursAtChar(s, sep, i); }
      }
      var rest := Split(s[k + 1..], sep);
      var r := [s[..k]] + rest;
      assert r[1..] == rest;
      assert s == s[..k] + [sep] + s[k + 1..];
      r
  }

  /** Splitting a joined list of separator-free parts gives the parts back. */
  lemma {:induction false} SplitJoin(parts: seq<string>, sep: char)
    requires |parts| >= 1
    requires forall i :: 0 <= i < |parts| ==> sep !in parts[i]
    ensures Split(Join(parts, sep), sep) == parts
  {
    var s := Join(parts, sep);
    if |parts| == 1 {
      assert IndexOf(s, [sep], 0) == -1 by {
        var k := IndexOf(s, [sep], 0);
        if k >= 0 { OccursAtChar(s, sep, k); }
      }
    } else {
      var head := parts[0];
      var tail := Join(parts[1..], sep);
      assert s == head + [sep] + tail;
      assert IndexOf(s, [sep], 0) == |head| by {
        OccursAtChar(s, sep, |head|);
        forall i | 0 <= i < |head| ensures !OccursAt(s, [sep], i) {
          OccursAtChar(s, sep, i);
          assert s[i] == head[i];
        }
      }
      assert s[..|head|] == head;
      assert s[|head| + 1..] == tail;
      assert Split(s, sep) == [head] + Split(tail, sep);
      SplitJoin(parts[1..], sep);
      assert parts == [head] + parts[1..];
    }
  }

  /** Concatenation of a list of strings, as a `strings.Builder` accumulates them. */
  function Concat(parts: seq<string>): string
  {
    if |parts| == 0 then "" else parts[0] + Concat(parts[1..])
  }

  /** `Concat` distributes over list concatenation. */
  lemma {:induction false} ConcatAppend(a: seq<string>, b: seq<string>)
    ensures Concat(a + b) == Concat(a) + Concat(b)
  {
    if |a| == 0 {
      assert a + b == b;
    } else {
      assert (a + b)[1..] == a[1..] + b;
      ConcatAppend(a[1..], b);
    }
  }
}
