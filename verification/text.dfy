/** The Python 2 `str` operations the system relies on, over `seq<char>`:
    `strip`, `lower`, `startswith`, `endswith`, `in`, `split` and `join`,
    `%d` formatting of a non-negative number, and `list.reverse()`. Strings are byte strings,
    so whitespace and case are the ASCII notions. */
module Text {

  /** `str.isspace` on one byte: space, tab, line feed, carriage return,
      vertical tab and form feed. */
  predicate IsSpace(c: char) {
    c == ' ' || c == '\t' || c == '\n' || c == '\r' || c == '\U{B}' || c == '\U{C}'
  }

  /** A string that `strip` leaves alone: empty, or neither end is whitespace. */
  predicate Stripped(s: string) {
    s == [] || (!IsSpace(s[0]) && !IsSpace(s[|s| - 1]))
  }

  /** The length of the leading whitespace run of `s`. */
  function LeadingSpaces(s: string): (n: nat)
    ensures n <= |s|
    ensures forall k :: 0 <= k < n ==> IsSpace(s[k])
    ensures n < |s| ==> !IsSpace(s[n])
  {
    if s != [] && IsSpace(s[0]) then 1 + LeadingSpaces(s[1..]) else 0
  }

  /** Where the trailing whitespace run of `s` starts. */
  function TrailingStart(s: string): (n: nat)
    ensures n <= |s|
    ensures forall k :: n <= k < |s| ==> IsSpace(s[k])
    ensures n > 0 ==> !IsSpace(s[n - 1])
  {
    if s != [] && IsSpace(s[|s| - 1]) then TrailingStart(s[..|s| - 1]) else |s|
  }

  /** `str.lstrip()`: the suffix left after the leading whitespace run. */
  function StripLeft(s: string): (r: string)
    ensures |r| <= |s| && r == s[|s| - |r|..]
    ensures forall k :: 0 <= k < |s| - |r| ==> IsSpace(s[k])
    ensures r == [] || !IsSpace(r[0])
  {
    s[LeadingSpaces(s)..]
  }

  /** `str.rstrip()`: the prefix left before the trailing whitespace run. */
  function StripRight(s: string): (r: string)
    ensures |r| <= |s| && r == s[..|r|]
    ensures forall k :: |r| <= k < |s| ==> IsSpace(s[k])
    ensures r == [] || !IsSpace(r[|r| - 1])
  {
    s[..TrailingStart(s)]
  }

  /** `str.strip()`: `s` without its leading and trailing whitespace runs.
      The result is itself stripped, and a stripped string comes back
      unchanged; `StripShape` says where in `s` the result sits. */
  function Strip(s: string): (r: string)
    ensures Stripped(r)
    ensures Stripped(s) ==> r == s
  {
    var left := StripLeft(s);
    var r := StripRight(left);
    assert r == [] || !IsSpace(r[0]) by {
      if r != [] { assert r[0] == left[0]; }
    }
    assert Stripped(s) ==> r == s by {
      if Stripped(s) && s != [] {
        assert left == s;
      }
    }
    r
  }

  /** The result of `Strip` is the infix of `s` that starts right after the
      leading whitespace run and is followed by whitespace only. */
  lemma StripShape(s: string)
    ensures |s| - |StripLeft(s)| + |Strip(s)| <= |s|
    ensures Strip(s) == s[|s| - |StripLeft(s)|..|s| - |StripLeft(s)| + |Strip(s)|]
    ensures forall k :: 0 <= k < |s| - |StripLeft(s)| ==> IsSpace(s[k])
    ensures forall k :: |s| - |StripLeft(s)| + |Strip(s)| <= k < |s| ==> IsSpace(s[k])
  {
    StripInfix(s);
    StripTrail(s);
  }

  lemma StripInfix(s: string)
    ensures |s| - |StripLeft(s)| + |Strip(s)| <= |s|
    ensures Strip(s) == s[|s| - |StripLeft(s)|..|s| - |StripLeft(s)| + |Strip(s)|]
  {
    var left := StripLeft(s);
    var lead := |s| - |left|;
    var r := StripRight(left);
    assert r == Strip(s);
    assert left == s[lead..] && r == left[..|r|];
    assert s[lead..][..|r|] == s[lead..lead + |r|];
  }

  lemma StripTrail(s: string)
    ensures forall k :: |s| - |StripLeft(s)| + |Strip(s)| <= k < |s| ==> IsSpace(s[k])
  {
    var left := StripLeft(s);
    var lead := |s| - |left|;
    var r := StripRight(left);
    assert r == Strip(s);
    forall k | lead + |r| <= k < |s|
      ensures IsSpace(s[k])
    {
      assert s[k] == left[k - lead];
    }
  }

  /** Stripping a stripped string with one whitespace character appended
      gives the string back. */
  lemma StripTrailingSpace(t: string, c: char)
    requires Stripped(t) && IsSpace(c)
    ensures Strip(t + [c]) == t
  {
    var s := t + [c];
    if t == [] {
      assert StripLeft(s) == StripLeft(s[1..]);
      assert s[1..] == [];
    } else {
      assert StripLeft(s) == s;
      assert s[..|s| - 1] == t;
      assert StripRight(s) == StripRight(t);
    }
  }

  /** Python 2 `str.lower()` on one byte: only ASCII capitals change. */
  function LowerChar(c: char): char {
    if 'A' <= c <= 'Z' then (c as int - 'A' as int + 'a' as int) as char else c
  }

  /** `str.lower()`: the same length, every byte mapped by `LowerChar`. */
  function Lower(s: string): (r: string)
    ensures |r| == |s|
    ensures forall i :: 0 <= i < |s| ==> r[i] == LowerChar(s[i])
  {
    if s == [] then [] else [LowerChar(s[0])] + Lower(s[1..])
  }

  /** `s.startswith(p)` */
  predicate StartsWith(s: string, p: string) {
    |p| <= |s| && s[..|p|] == p
  }

  /** `s.endswith(p)` */
  predicate EndsWith(s: string, p: string) {
    |p| <= |s| && s[|s| - |p|..] == p
  }

  /** `sub in s` for strings: `sub` occurs at some offset of `s`. */
  predicate Contains(s: string, sub: string) {
    exists i :: 0 <= i <= |s| - |sub| && OccursAt(s, sub, i)
  }

  /** `sub` occurs in `s` starting at offset `i`. */
  predicate OccursAt(s: string, sub: string, i: nat)
    requires i + |sub| <= |s|
  {
    s[i..i + |sub|] == sub
  }

  /** `s` differs from `sub` placed at offset `i`, at some index from `j` on. */
  predicate MismatchFrom(s: string, sub: string, i: nat, j: nat)
    requires i + |sub| <= |s| && j <= |sub|
    decreases |sub| - j
  {
    j < |sub| && (s[i + j] != sub[j] || MismatchFrom(s, sub, i, j + 1))
  }

  /** `sub` occurs in `s` at no offset from `i` on, checked offset by offset. */
  predicate AbsentFrom(s: string, sub: string, i: nat)
    decreases |s| - i
  {
    i + |sub| > |s| || (MismatchFrom(s, sub, i, 0) && AbsentFrom(s, sub, i + 1))
  }

  lemma {:induction false} MismatchSound(s: string, sub: string, i: nat, j: nat)
    requires i + |sub| <= |s| && j <= |sub| && MismatchFrom(s, sub, i, j)
    ensures !OccursAt(s, sub, i)
    decreases |sub| - j
  {
    if s[i + j] != sub[j] {
      assert s[i..i + |sub|][j] == s[i + j];
    } else {
      MismatchSound(s, sub, i, j + 1);
    }
  }

  lemma {:induction false} AbsentFromSound(s: string, sub: string, i: nat)
    requires AbsentFrom(s, sub, i)
    ensures forall k :: i <= k <= |s| - |sub| ==> !OccursAt(s, sub, k)
    decreases |s| - i
  {
    if i + |sub| <= |s| {
      MismatchSound(s, sub, i, 0);
      AbsentFromSound(s, sub, i + 1);
    }
  }

  /** The offset-by-offset check decides `sub in s`: it is false when the
      check finds a mismatch at every offset. */
  lemma NotContains(s: string, sub: string)
    requires AbsentFrom(s, sub, 0)
    ensures !Contains(s, sub)
  {
    AbsentFromSound(s, sub, 0);
  }

  /** A string that lacks a character of `sub` does not contain `sub`. */
  lemma AbsentChar(s: string, sub: string, c: char)
    requires c in sub && c !in s
    ensures !Contains(s, sub)
  {
    forall i | 0 <= i <= |s| - |sub|
      ensures !OccursAt(s, sub, i)
    {
      assert c !in s[i..i + |sub|];
    }
  }

  /** A string that differs from `p` at an index both share does not start with `p`. */
  lemma NotStartsWith(s: string, p: string, k: nat)
    requires k < |p| && k < |s| && s[k] != p[k]
    ensures !StartsWith(s, p)
  {
  }

  /** `s.split(c)` for a one-character separator: one part more than there are
      separators, and no part holds the separator. */
  function Split(s: string, c: char): (parts: seq<string>)
    ensures |parts| >= 1
    ensures forall p :: p in parts ==> c !in p
    decreases |s|
  {
    if s == [] then [""]
    else
      var rest := Split(s[1..], c);
      if s[0] == c then [""] + rest else [[s[0]] + rest[0]] + rest[1..]
  }

  /** There is one part more than there are separators. */
  lemma {:induction false} SplitCount(s: string, c: char)
    ensures |Split(s, c)| == multiset(s)[c] + 1
    decreases |s|
  {
    if s != [] {
      SplitCount(s[1..], c);
      assert s == [s[0]] + s[1..];
    }
  }

  /** `c.join(parts)` for a one-character separator. */
  function Join(parts: seq<string>, c: char): string
  {
    if parts == [] then ""
    else if |parts| == 1 then parts[0]
    else parts[0] + [c] + Join(parts[1..], c)
  }

  /** Joining the parts of a split with the same separator gives the string back. */
  lemma {:induction false} JoinSplit(s: string, c: char)
    ensures Join(Split(s, c), c) == s
    decreases |s|
  {
    if s != [] {
      JoinSplit(s[1..], c);
      var rest := Split(s[1..], c);
      if s[0] == c {
        assert Split(s, c) == [""] + rest;
        assert Join(Split(s, c), c) == [c] + Join(rest, c);
      } else {
        assert Split(s, c) == [[s[0]] + rest[0]] + rest[1..];
        if |rest| > 1 {
          assert Join(rest, c) == rest[0] + [c] + Join(rest[1..], c);
        }
      }
    }
  }

  /** Splitting `p + t`, where `p` holds no separator, glues `p` onto the
      first part of `t`. */
  lemma {:induction false} SplitPrepend(p: string, t: string, c: char)
    requires c !in p
    ensures var r := Split(t, c);
      Split(p + t, c) == [p + r[0]] + r[1..]
    decreases |p|
  {
    if p != [] {
      var r := Split(t, c);
      SplitPrepend(p[1..], t, c);
      assert (p + t)[1..] == p[1..] + t;
      var rest := Split(p[1..] + t, c);
      assert rest == [p[1..] + r[0]] + r[1..];
      assert rest[1..] == r[1..];
      assert p[0] != c && p + t != [];
      assert (p + t)[0] == p[0];
      assert Split(p + t, c) == [[p[0]] + rest[0]] + rest[1..];
      assert [p[0]] + (p[1..] + r[0]) == p + r[0];
      assert Split(p + t, c) == [p + r[0]] + r[1..];
    } else {
      assert p + t == t;
      assert p + Split(t, c)[0] == Split(t, c)[0];
    }
  }

  /** Splitting a join of separator-free parts gives the parts back. */
  lemma {:induction false} SplitJoin(parts: seq<string>, c: char)
    requires |parts| >= 1
    requires forall p :: p in parts ==> c !in p
    ensures Split(Join(parts, c), c) == parts
    decreases |parts|
  {
    if |parts| == 1 {
      SplitPrepend(parts[0], "", c);
      assert parts[0] + "" == parts[0];
    } else {
      var tail := Join(parts[1..], c);
      SplitJoin(parts[1..], c);
      SplitPrepend(parts[0], [c] + tail, c);
      assert parts[0] + [c] + tail == parts[0] + ([c] + tail);
      assert ([c] + tail)[1..] == tail;
      assert Split([c] + tail, c) == [""] + Split(tail, c);
      assert parts[0] + "" == parts[0];
      assert parts == [parts[0]] + parts[1..];
    }
  }

  /** The decimal digits of one number below ten. */
  function DigitChar(d: nat): (c: char)
    requires d < 10
    ensures '0' <= c <= '9' && c as int - '0' as int == d
  {
    ('0' as int + d) as char
  }

  /** `"%d" % n` for a non-negative number: its decimal digits, most
      significant first, without leading zeros. */
  function NatToString(n: nat): (r: string)
    ensures r != []
    ensures forall i :: 0 <= i < |r| ==> '0' <= r[i] <= '9'
    ensures |r| > 1 ==> r[0] != '0'
    ensures DecimalValue(r) == n
  {
    if n < 10 then [DigitChar(n)]
    else
      var r := NatToString(n / 10) + [DigitChar(n % 10)];
      assert r[..|r| - 1] == NatToString(n / 10);
      r
  }

  /** The number a string of decimal digits denotes. */
  function DecimalValue(s: string): int
  {
    if s == [] then 0 else 10 * DecimalValue(s[..|s| - 1]) + (s[|s| - 1] as int - '0' as int)
  }

  /** Stripping adds no character: one absent from `s` is absent from `Strip(s)`. */
  lemma StripAbsent(s: string, c: char)
    requires c !in s
    ensures c !in Strip(s)
  {
    StripShape(s);
  }

  /** Splitting adds no character: one absent from `s` is absent from every part. */
  lemma {:induction false} SplitAbsent(s: string, sep: char, c: char)
    requires c !in s
    ensures forall p :: p in Split(s, sep) ==> c !in p
    decreases |s|
  {
    if s != [] {
      SplitAbsent(s[1..], sep, c);
    }
  }

  /** `[f(x) for x in s]` */
  function Map<A, B>(f: A -> B, s: seq<A>): (r: seq<B>)
    ensures |r| == |s|
    ensures forall i {:trigger r[i]} :: 0 <= i < |s| ==> r[i] == f(s[i])
  {
    seq(|s|, i requires 0 <= i < |s| => f(s[i]))
  }

  /** Mapping two sequences one after the other maps their concatenation. */
  lemma MapConcat<A, B>(f: A -> B, a: seq<A>, b: seq<A>)
    ensures Map(f, a + b) == Map(f, a) + Map(f, b)
  {
    var l, r := Map(f, a + b), Map(f, a) + Map(f, b);
    forall k | 0 <= k < |l|
      ensures l[k] == r[k]
    {
      if k < |a| {
        assert (a + b)[k] == a[k];
      } else {
        assert (a + b)[k] == b[k - |a|];
      }
    }
  }

  /** `list.reverse()`: the same elements, last first. */
  function Reverse<T>(s: seq<T>): (r: seq<T>)
    ensures |r| == |s|
    ensures forall i {:trigger r[i]} :: 0 <= i < |s| ==> r[i] == s[|s| - 1 - i]
  {
    seq(|s|, i requires 0 <= i < |s| => s[|s| - 1 - i])
  }

  /** Reversing keeps exactly the same elements. */
  lemma ReverseMember<T>(s: seq<T>, x: T)
    ensures x in Reverse(s) <==> x in s
  {
    var r := Reverse(s);
    if x in r {
      var i :| 0 <= i < |r| && r[i] == x;
      assert s[|s| - 1 - i] == x;
    }
    if x in s {
      var i :| 0 <= i < |s| && s[i] == x;
      assert r[|s| - 1 - i] == x;
    }
  }

  /** Reversing twice gives the sequence back. */
  lemma ReverseReverse<T>(s: seq<T>)
    ensures Reverse(Reverse(s)) == s
  {
    assert forall i :: 0 <= i < |s| ==> Reverse(Reverse(s))[i] == s[i];
  }
}
