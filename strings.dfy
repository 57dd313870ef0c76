/** The Go `strings` operations the chat code relies on: Split with a one-character separator,
    Join, TrimSpace, ToLower and the `<` order on strings. A Go string is a byte string; here it is
    `string` (a sequence of code points), whose order agrees with Go's byte order on valid UTF-8. */
module Strings {

  /** Number of occurrences of `c` in `s`. */
  function Count(s: string, c: char): nat
  {
    if s == [] then 0 else (if s[0] == c then 1 else 0) + Count(s[1..], c)
  }

  /** strings.Split(s, string(sep)): the pieces between separators; there is always one piece more
      than there are separators, and no piece holds a separator. */
  function Split(s: string, sep: char): (parts: seq<string>)
    ensures |parts| == Count(s, sep) + 1
    ensures forall i :: 0 <= i < |parts| ==> sep !in parts[i]
  {
    if s == [] then [""]
    else
      var rest := Split(s[1..], sep);
      if s[0] == sep then [""] + rest
      else [[s[0]] + rest[0]] + rest[1..]
  }

  /** Total length of the parts. */
  function TotalLength(parts: seq<string>): nat
  {
    if parts == [] then 0 else |parts[0]| + TotalLength(parts[1..])
  }

  /** strings.Join: the parts with `sep` between neighbours; the result starts with the first
      part and holds every part's characters plus one separator per gap. */
  function Join(parts: seq<string>, sep: string): (r: string)
    ensures parts == [] ==> r == ""
    ensures parts != [] ==> parts[0] <= r && |r| == TotalLength(parts) + (|parts| - 1) * |sep|
  {
    if parts == [] then ""
    else if |parts| == 1 then parts[0]
    else parts[0] + sep + Join(parts[1..], sep)
  }

  /** Joining the pieces of a split gives the original string back. */
  lemma {:induction false} JoinSplit(s: string, sep: char)
    ensures Join(Split(s, sep), [sep]) == s
  {
    if s != [] {
      var rest := Split(s[1..], sep);
      JoinSplit(s[1..], sep);
      if s[0] == sep {
        assert Split(s, sep) == [""] + rest;
        assert s == [sep] + s[1..];
      } else {
        assert Split(s, sep) == [[s[0]] + rest[0]] + rest[1..];
        if |rest| == 1 {
          assert s == [s[0]] + rest[0];
        } else {
          assert Join(rest, [sep]) == rest[0] + [sep] + Join(rest[1..], [sep]);
          assert s == [s[0]] + s[1..];
        }
      }
    }
  }

  /** A string that splits into exactly two pieces is the first piece, one separator and the
      second piece. */
  lemma SplitTwo(s: string, sep: char)
    requires |Split(s, sep)| == 2
    ensures var parts := Split(s, sep);
      var i := |parts[0]|;
      i < |s| && s[i] == sep && s[..i] == parts[0] && s[i + 1..] == parts[1]
  {
    var parts := Split(s, sep);
    JoinSplit(s, sep);
    assert Join(parts[1..], [sep]) == parts[1];
    assert s == parts[0] + [sep] + parts[1];
  }

  /** A string without the separator splits into itself. */
  lemma {:induction false} SplitNoSep(a: string, sep: char)
    requires sep !in a
    ensures Split(a, sep) == [a]
  {
    if a != [] {
      SplitNoSep(a[1..], sep);
      assert [a[0]] + a[1..] == a;
    }
  }

  /** Splitting at a first separator: the part before it, then the split of the rest. */
  lemma {:induction false} SplitAtSep(a: string, sep: char, b: string)
    requires sep !in a
    ensures Split(a + [sep] + b, sep) == [a] + Split(b, sep)
  {
    if a == [] {
      assert a + [sep] + b == [sep] + b;
      assert ([sep] + b)[1..] == b;
    } else {
      SplitAtSep(a[1..], sep, b);
      var s := a + [sep] + b;
      assert s[0] == a[0] && s[1..] == a[1..] + [sep] + b;
      assert [a[0]] + a[1..] == a;
    }
  }

  /** Splitting a join of separator-free parts gives the parts back. */
  lemma {:induction false} SplitJoin(parts: seq<string>, sep: char)
    requires |parts| > 0
    requires forall i :: 0 <= i < |parts| ==> sep !in parts[i]
    ensures Split(Join(parts, [sep]), sep) == parts
  {
    if |parts| == 1 {
      SplitNoSep(parts[0], sep);
    } else {
      SplitJoin(parts[1..], sep);
      SplitAtSep(parts[0], sep, Join(parts[1..], [sep]));
      assert [parts[0]] + parts[1..] == parts;
    }
  }

  /** unicode.IsSpace, the white space that strings.TrimSpace removes. */
  predicate IsSpace(c: char)
  {
    c == ' ' || c == '\t' || c == '\n' || c == '\U{000B}' || c == '\U{000C}' || c == '\r'
    || c == '\U{0085}' || c == '\U{00A0}' || c == '\U{1680}' || ('\U{2000}' <= c <= '\U{200A}')
    || c == '\U{2028}' || c == '\U{2029}' || c == '\U{202F}' || c == '\U{205F}' || c == '\U{3000}'
  }

  /** Every character of `s` from index `lo` up to `hi` is white space. */
  predicate AllSpace(s: string, lo: int, hi: int)
  {
    forall k :: lo <= k < hi && 0 <= k < |s| ==> IsSpace(s[k])
  }

  /** Neither the first nor the last character is white space. */
  predicate Trimmed(s: string)
  {
    s == [] || (!IsSpace(s[0]) && !IsSpace(s[|s| - 1]))
  }

  /** Drops the leading white space: the result is a suffix of `s`, everything dropped was white
      space and the result does not start with white space. */
  function TrimLeft(s: string): (r: string)
    ensures |r| <= |s| && r == s[|s| - |r|..]
    ensures AllSpace(s, 0, |s| - |r|)
    ensures r == [] || !IsSpace(r[0])
  {
    if s != [] && IsSpace(s[0]) then TrimLeft(s[1..]) else s
  }

  /** Drops the trailing white space: the result is a prefix of `s`, everything dropped was white
      space and the result does not end with white space. */
  function TrimRight(s: string): (r: string)
    ensures |r| <= |s| && r == s[..|r|]
    ensures AllSpace(s, |r|, |s|)
    ensures r == [] || !IsSpace(r[|r| - 1])
  {
    if s != [] && IsSpace(s[|s| - 1]) then TrimRight(s[..|s| - 1]) else s
  }

  /** `r` sits at index `i` of `s`, with only white space before and after it. */
  predicate SpaceAround(s: string, i: nat, r: string)
  {
    && i + |r| <= |s|
    && r == s[i..i + |r|]
    && AllSpace(s, 0, i)
    && AllSpace(s, i + |r|, |s|)
  }

  /** strings.TrimSpace: the result is the slice of `s` left once the white space at both ends
      is dropped: it has no surrounding white space, everything dropped was white space, and a
      string that has none is returned unchanged. */
  function TrimSpace(s: string): (r: string)
    ensures Trimmed(r)
    ensures Trimmed(s) ==> r == s
    ensures exists i :: SpaceAround(s, i, r)
  {
    var l := TrimLeft(s);
    var r := TrimRight(l);
    assert r != [] ==> r[0] == l[0];
    TrimBothEnds(s, l, r);
    r
  }

  /** A prefix `r` of a suffix `l` of `s`, with white space before `l` and after `r` within
      `l`, is a slice of `s` with only white space around it. */
  lemma TrimBothEnds(s: string, l: string, r: string)
    requires |l| <= |s| && l == s[|s| - |l|..] && AllSpace(s, 0, |s| - |l|)
    requires |r| <= |l| && r == l[..|r|] && AllSpace(l, |r|, |l|)
    ensures SpaceAround(s, |s| - |l|, r)
  {
    var i := |s| - |l|;
    assert r == s[i..i + |r|];
    SpaceShifted(s, i, l, |r|);
  }

  /** White space at the end of a suffix is white space at the end of the whole string. */
  lemma SpaceShifted(s: string, i: nat, l: string, n: nat)
    requires i <= |s| && l == s[i..] && n <= |l|
    requires AllSpace(l, n, |l|)
    ensures AllSpace(s, i + n, |s|)
  {
    forall k | i + n <= k < |s|
      ensures IsSpace(s[k])
    {
      assert s[k] == l[k - i];
    }
  }

  /** TrimSpace leaves nothing exactly when the string is all white space. */
  lemma TrimSpaceEmpty(s: string)
    ensures TrimSpace(s) == "" <==> forall i :: 0 <= i < |s| ==> IsSpace(s[i])
  {
    var l := TrimLeft(s);
    if l != [] {
      assert l[0] == s[|s| - |l|];
    }
  }

  /** Trimming a string made of a blank and a trimmed value gives the value. */
  lemma BlankThenTrimmed(v: string)
    requires Trimmed(v)
    ensures TrimSpace([' '] + v) == v
  {
    var b := [' '] + v;
    assert b[1..] == v;
    assert TrimLeft(b) == TrimLeft(v);
    assert TrimLeft(v) == v;
    assert TrimRight(v) == v;
  }

  /** unicode.ToLower on ASCII letters; every other character is kept. */
  function LowerChar(c: char): char
  {
    if 'A' <= c <= 'Z' then (c as int + 32) as char else c
  }

  /** strings.ToLower, with the case mapping of LowerChar. */
  function ToLower(s: string): (r: string)
    ensures |r| == |s|
    ensures forall i :: 0 <= i < |s| ==> r[i] == LowerChar(s[i])
  {
    seq(|s|, i requires 0 <= i < |s| => LowerChar(s[i]))
  }

  /** Go's `a < b` on strings: lexicographic, a proper prefix before its extensions. */
  predicate Less(a: string, b: string)
  {
    if b == [] then false
    else if a == [] then true
    else if a[0] != b[0] then a[0] < b[0]
    else Less(a[1..], b[1..])
  }

  /** `<=` on strings. */
  predicate LessEq(a: string, b: string)
  {
    !Less(b, a)
  }

  lemma {:induction false} LessIrreflexive(a: string)
    ensures !Less(a, a)
  {
    if a != [] {
      LessIrreflexive(a[1..]);
    }
  }

  lemma {:induction false} LessTransitive(a: string, b: string, c: string)
    requires Less(a, b) && Less(b, c)
    ensures Less(a, c)
  {
    if a != [] && a[0] == b[0] && b[0] == c[0] {
      LessTransitive(a[1..], b[1..], c[1..]);
    }
  }

  /** Two different strings are ordered one way or the other. */
  lemma {:induction false} LessTotal(a: string, b: string)
    ensures a == b || Less(a, b) || Less(b, a)
  {
    if a != [] && b != [] && a[0] == b[0] {
      LessTotal(a[1..], b[1..]);
      if a[1..] == b[1..] {
        assert a == [a[0]] + a[1..] && b == [b[0]] + b[1..];
      }
    }
  }

  /** `<=` is a total order on strings. */
  lemma LessEqTotalOrder(a: string, b: string, c: string)
    ensures LessEq(a, b) || LessEq(b, a)
    ensures LessEq(a, b) && LessEq(b, a) ==> a == b
    ensures LessEq(a, b) && LessEq(b, c) ==> LessEq(a, c)
  {
    LessTotal(a, b);
    LessTotal(a, c);
    LessTotal(b, c);
    LessIrreflexive(a);
    if Less(a, b) && Less(b, a) {
      LessTransitive(a, b, a);
    }
    if Less(c, a) && !Less(b, a) && !Less(c, b) {
      if a == b {
      } else if b == c {
      } else {
        LessTransitive(b, c, a);
      }
    }
  }
}
