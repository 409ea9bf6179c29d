/**
 * The .NET string operations the core relies on, over `string` = `seq<char>`:
 * `char.IsWhiteSpace`, `Trim`, `StartsWith`/`EndsWith`/`Contains` (ordinal),
 * ordinal-ignore-case comparison (ASCII letters), `IndexOf`, `Split(char)` and `string.Join`.
 */
module Text {
  import opened Wrappers

  /** `char.IsWhiteSpace`: the Unicode space separators, line and paragraph separators, U+0009..U+000D and U+0085. */
  predicate IsWhiteSpace(c: char) {
    var n := c as int;
    (9 <= n <= 13) || n == 0x20 || n == 0x85 || n == 0xA0 || n == 0x1680
    || (0x2000 <= n <= 0x200A) || n == 0x2028 || n == 0x2029 || n == 0x202F
    || n == 0x205F || n == 0x3000
  }

  /** `string.IsNullOrWhiteSpace` on a non-null string: empty or whitespace only. */
  predicate IsBlank(s: string) {
    forall i :: 0 <= i < |s| ==> IsWhiteSpace(s[i])
  }

  function TrimStart(s: string): (r: string)
    ensures |r| <= |s| && r == s[|s| - |r|..]
    ensures forall i :: 0 <= i < |s| - |r| ==> IsWhiteSpace(s[i])
    ensures r == [] || !IsWhiteSpace(r[0])
  {
    if |s| > 0 && IsWhiteSpace(s[0]) then TrimStart(s[1..]) else s
  }

  function TrimEnd(s: string): (r: string)
    ensures |r| <= |s| && r == s[..|r|]
    ensures forall i :: |r| <= i < |s| ==> IsWhiteSpace(s[i])
    ensures r == [] || !IsWhiteSpace(r[|r| - 1])
  {
    if |s| > 0 && IsWhiteSpace(s[|s| - 1]) then TrimEnd(s[..|s| - 1]) else s
  }

  /** `string.Trim()`: leading and trailing white space removed. */
  function Trim(s: string): (r: string)
    ensures |r| <= |s|
    ensures r == [] || (!IsWhiteSpace(r[0]) && !IsWhiteSpace(r[|r| - 1]))
  {
    TrimEnd(TrimStart(s))
  }

  /** A string that `Trim` leaves as it is. */
  predicate IsTrimmed(s: string) {
    s == [] || (!IsWhiteSpace(s[0]) && !IsWhiteSpace(s[|s| - 1]))
  }

  lemma TrimIsTrimmed(s: string)
    ensures IsTrimmed(Trim(s))
  {
  }

  lemma {:induction false} TrimOfTrimmed(s: string)
    requires IsTrimmed(s)
    ensures Trim(s) == s
  {
    if s == [] {
      assert TrimStart(s) == s;
      assert TrimEnd(s) == s;
    } else {
      TrimStartNoop(s);
      TrimEndNoop(s);
    }
    assert Trim(s) == TrimEnd(TrimStart(s));
  }

  lemma TrimStartNoop(s: string)
    requires |s| > 0 && !IsWhiteSpace(s[0])
    ensures TrimStart(s) == s
  {
  }

  lemma TrimEndNoop(s: string)
    requires |s| > 0 && !IsWhiteSpace(s[|s| - 1])
    ensures TrimEnd(s) == s
  {
  }

  lemma {:induction false} TrimEmptyIffBlank(s: string)
    ensures Trim(s) == [] <==> IsBlank(s)
  {
    if !IsBlank(s) {
      var t := TrimStart(s);
      var i :| 0 <= i < |s| && !IsWhiteSpace(s[i]);
      assert t != [] && !IsWhiteSpace(t[0]);
    }
  }

  lemma TrimIdempotent(s: string)
    ensures Trim(Trim(s)) == Trim(s)
  {
    TrimIsTrimmed(s);
    TrimOfTrimmed(Trim(s));
  }

  predicate StartsWith(s: string, prefix: string) {
    |prefix| <= |s| && s[..|prefix|] == prefix
  }

  /** `EndsWith(suffix, StringComparison.Ordinal)`. */
  predicate EndsWith(s: string, suffix: string) {
    |suffix| <= |s| && s[|s| - |suffix|..] == suffix
  }

  /** `p` occurs in `s` starting at index `i`. */
  ghost predicate OccursAt(s: string, p: string, i: int) {
    0 <= i && i + |p| <= |s| && s[i..i + |p|] == p
  }

  /** `s.Contains(p)`, ordinal. */
  function Contains(s: string, p: string): (b: bool)
    ensures b <==> exists i :: OccursAt(s, p, i)
  {
    if StartsWith(s, p) then
      assert OccursAt(s, p, 0);
      true
    else if |s| == 0 then
      assert forall i :: !OccursAt(s, p, i);
      false
    else
      var b := Contains(s[1..], p);
      assert forall i :: OccursAt(s[1..], p, i) <==> OccursAt(s, p, i + 1) by {
        forall i ensures OccursAt(s[1..], p, i) <==> OccursAt(s, p, i + 1) {
          if 0 <= i && i + |p| <= |s| - 1 {
            assert s[1..][i..i + |p|] == s[i + 1..i + 1 + |p|];
          }
        }
      }
      assert !OccursAt(s, p, 0);
      assert b ==> exists i :: OccursAt(s, p, i) by {
        if b {
          var i :| OccursAt(s[1..], p, i);
          assert OccursAt(s, p, i + 1);
        }
      }
      assert (exists i :: OccursAt(s, p, i)) ==> b by {
        if exists i :: OccursAt(s, p, i) {
          var i :| OccursAt(s, p, i);
          assert i != 0;
          assert OccursAt(s[1..], p, i - 1);
        }
      }
      b
  }

  function ToUpperAscii(c: char): char {
    if 'a' <= c <= 'z' then (c as int - 32) as char else c
  }

  function UpperAscii(s: string): (r: string)
    ensures |r| == |s| && forall i :: 0 <= i < |s| ==> r[i] == ToUpperAscii(s[i])
  {
    seq(|s|, i requires 0 <= i < |s| => ToUpperAscii(s[i]))
  }

  /** `a.Equals(b, StringComparison.OrdinalIgnoreCase)`, with case folding of the ASCII letters. */
  predicate EqualsIgnoreCase(a: string, b: string) {
    UpperAscii(a) == UpperAscii(b)
  }

  /** `s.Contains(p, StringComparison.OrdinalIgnoreCase)`, with case folding of the ASCII letters. */
  predicate ContainsIgnoreCase(s: string, p: string) {
    Contains(UpperAscii(s), UpperAscii(p))
  }

  /** `s.IndexOf(c)`: the first index holding `c`, or None for -1. */
  function IndexOf(s: string, c: char): (r: Option<nat>)
    ensures r.None? <==> c !in s
    ensures r.Some? ==> r.value < |s| && s[r.value] == c && c !in s[..r.value]
  {
    if |s| == 0 then None
    else if s[0] == c then Some(0)
    else
      match IndexOf(s[1..], c)
      case None => None
      case Some(i) =>
        assert s[..i + 1] == [s[0]] + s[1..][..i];
        Some(i + 1)
  }

  function Count(s: string, c: char): nat {
    if |s| == 0 then 0 else (if s[0] == c then 1 else 0) + Count(s[1..], c)
  }

  /** `s.Split(c)`: the pieces between the occurrences of `c`, empty pieces kept. */
  function Split(s: string, c: char): (r: seq<string>)
    ensures |r| == Count(s, c) + 1
    ensures forall k :: 0 <= k < |r| ==> c !in r[k]
  {
    if |s| == 0 then [""]
    else
      var rest := Split(s[1..], c);
      if s[0] == c then [""] + rest else [[s[0]] + rest[0]] + rest[1..]
  }

  lemma {:induction false} SplitNoSeparator(s: string, c: char)
    requires c !in s
    ensures Split(s, c) == [s]
  {
    if |s| > 0 {
      SplitNoSeparator(s[1..], c);
      assert [s[0]] + s[1..] == s;
    }
  }

  lemma {:induction false} SplitAfterPiece(a: string, c: char, b: string)
    requires c !in a
    ensures Split(a + [c] + b, c) == [a] + Split(b, c)
  {
    if |a| == 0 {
      assert a + [c] + b == [c] + b;
      assert ([c] + b)[1..] == b;
    } else {
      var s := a + [c] + b;
      assert s[0] == a[0] && s[1..] == a[1..] + [c] + b;
      SplitAfterPiece(a[1..], c, b);
      assert [a[0]] + a[1..] == a;
    }
  }

  /** `string.Join(sep, parts)`. */
  function Join(sep: string, parts: seq<string>): string {
    if |parts| == 0 then ""
    else if |parts| == 1 then parts[0]
    else parts[0] + sep + Join(sep, parts[1..])
  }

  lemma JoinThree(sep: string, x: string, y: string, z: string)
    ensures Join(sep, [x, y, z]) == x + sep + (y + sep + z)
  {
    var t := [x, y, z];
    assert t[1..] == [y, z] && t[1..][1..] == [z];
    assert Join(sep, [z]) == z;
    assert Join(sep, [y, z]) == y + sep + z;
  }

  lemma JoinFour(sep: string, w: string, x: string, y: string, z: string)
    ensures Join(sep, [w, x, y, z]) == w + sep + (x + sep + (y + sep + z))
  {
    assert [w, x, y, z][1..] == [x, y, z];
    JoinThree(sep, x, y, z);
  }

  lemma {:induction false} JoinAppend(sep: string, parts: seq<string>, p: string)
    requires |parts| >= 1
    ensures Join(sep, parts + [p]) == Join(sep, parts) + sep + p
  {
    if |parts| == 1 {
      assert parts + [p] == [parts[0], p];
    } else {
      assert (parts + [p])[1..] == parts[1..] + [p];
      JoinAppend(sep, parts[1..], p);
    }
  }

  /** Joining with a one-character separator that no part contains and splitting again gives the parts back. */
  lemma {:induction false} SplitJoin(parts: seq<string>, c: char)
    requires |parts| >= 1
    requires forall k :: 0 <= k < |parts| ==> c !in parts[k]
    ensures Split(Join([c], parts), c) == parts
  {
    if |parts| == 1 {
      SplitNoSeparator(parts[0], c);
    } else {
      SplitJoin(parts[1..], c);
      SplitAfterPiece(parts[0], c, Join([c], parts[1..]));
      assert [parts[0]] + parts[1..] == parts;
    }
  }
}
