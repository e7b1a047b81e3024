/**
 * Text operations shared by the parsers and serialisers: splitting on a separator and joining
 * back (Guava's Splitter.on(c) and Joiner.on(c), Python's str.split and str.join, all of
 * which keep empty pieces), trimming whitespace, ASCII case, and Integer.parseInt.
 */
module Text {
  import opened Wrappers
  import opened Errors

  predicate NotIn(c: char, s: string) {
    forall i :: 0 <= i < |s| ==> s[i] != c
  }

  /** The pieces of s between occurrences of sep, empty pieces included. */
  function Split(s: string, sep: char): (ps: seq<string>)
    ensures |ps| >= 1
    ensures forall i :: 0 <= i < |ps| ==> NotIn(sep, ps[i])
  {
    if s == [] then [""]
    else if s[0] == sep then [""] + Split(s[1..], sep)
    else
      var rest := Split(s[1..], sep);
      [[s[0]] + rest[0]] + rest[1..]
  }

  /** The pieces joined with sep between consecutive ones. */
  function Join(ps: seq<string>, sep: char): string {
    if ps == [] then ""
    else if |ps| == 1 then ps[0]
    else ps[0] + [sep] + Join(ps[1..], sep)
  }

  /** Joining the pieces of a split gives back the string. */
  lemma {:induction false} JoinSplit(s: string, sep: char)
    ensures Join(Split(s, sep), sep) == s
  {
    if s != [] {
      JoinSplit(s[1..], sep);
      var rest := Split(s[1..], sep);
      if s[0] == sep {
        assert Split(s, sep)[1..] == rest;
      } else {
        var ps := Split(s, sep);
        if |rest| == 1 {
          assert ps == [[s[0]] + rest[0]];
        } else {
          assert ps[1..] == rest[1..];
          assert Join(rest, sep) == rest[0] + [sep] + Join(rest[1..], sep);
        }
      }
    }
  }

  /** Splitting a join of pieces free of sep gives back the pieces. */
  lemma {:induction false} SplitJoin(ps: seq<string>, sep: char)
    requires ps != [] && forall i :: 0 <= i < |ps| ==> NotIn(sep, ps[i])
    ensures Split(Join(ps, sep), sep) == ps
  {
    if |ps| == 1 {
      SplitPiece(ps[0], sep);
    } else {
      SplitJoin(ps[1..], sep);
      SplitPrefix(ps[0], Join(ps[1..], sep), sep);
      assert ps == [ps[0]] + ps[1..];
    }
  }

  /** A piece free of sep splits into itself. */
  lemma {:induction false} SplitPiece(p: string, sep: char)
    requires NotIn(sep, p)
    ensures Split(p, sep) == [p]
  {
    if p != [] {
      SplitPiece(p[1..], sep);
      assert p[0] != sep;
      assert [p[0]] + p[1..] == p;
    }
  }

  /** Splitting p + [sep] + rest, with p free of sep: p, then the pieces of rest. */
  lemma {:induction false} SplitPrefix(p: string, rest: string, sep: char)
    requires NotIn(sep, p)
    ensures Split(p + [sep] + rest, sep) == [p] + Split(rest, sep)
  {
    if p == [] {
      assert p + [sep] + rest == [sep] + rest;
      assert ([sep] + rest)[1..] == rest;
    } else {
      SplitPrefix(p[1..], rest, sep);
      assert (p + [sep] + rest)[1..] == p[1..] + [sep] + rest;
      assert [p[0]] + p[1..] == p;
    }
  }

  /** Guava's CharMatcher whitespace: the Unicode White_Space characters, as Guava lists them. */
  const Whitespace: set<char> := {
    '\t', '\n', '\U{000B}', '\U{000C}', '\r', ' ', '\U{0085}', '\U{00A0}', '\U{1680}', '\U{180E}',
    '\U{2000}', '\U{2001}', '\U{2002}', '\U{2003}', '\U{2004}', '\U{2005}', '\U{2006}', '\U{2007}',
    '\U{2008}', '\U{2009}', '\U{200A}', '\U{2028}', '\U{2029}', '\U{202F}', '\U{205F}', '\U{3000}'
  }

  /** s without its leading whitespace. */
  function TrimStart(s: string): (r: string)
    ensures |r| <= |s| && r == s[|s| - |r|..]
    ensures r == [] || r[0] !in Whitespace
    ensures forall i :: 0 <= i < |s| - |r| ==> s[i] in Whitespace
  {
    if s != [] && s[0] in Whitespace then TrimStart(s[1..]) else s
  }

  /** s without its trailing whitespace. */
  function TrimEnd(s: string): (r: string)
    ensures |r| <= |s| && r == s[..|r|]
    ensures r == [] || r[|r| - 1] !in Whitespace
    ensures forall i :: |r| <= i < |s| ==> s[i] in Whitespace
  {
    if s != [] && s[|s| - 1] in Whitespace then TrimEnd(s[..|s| - 1]) else s
  }

  /** trimFrom: the infix of s left after removing whitespace at both ends. */
  function Trim(s: string): (r: string)
    ensures |r| <= |s|
    ensures r == [] || (r[0] !in Whitespace && r[|r| - 1] !in Whitespace)
  {
    TrimEnd(TrimStart(s))
  }

  /** Trim removes whitespace only: s is some whitespace, then the result, then more whitespace. */
  predicate AllWhitespace(w: string) {
    forall i :: 0 <= i < |w| ==> w[i] in Whitespace
  }

  lemma {:induction false} TrimInfix(s: string)
    ensures var r := Trim(s);
            var start := |s| - |TrimStart(s)|;
            && start + |r| <= |s| && s == s[..start] + r + s[start + |r|..]
            && AllWhitespace(s[..start]) && AllWhitespace(s[start + |r|..])
  {
    var t := TrimStart(s);
    TrimParts(s, t, TrimEnd(t), |s| - |t|);
  }

  lemma {:induction false} TrimParts(s: string, t: string, r: string, start: nat)
    requires start <= |s| && t == s[start..] && |r| <= |t| && r == t[..|r|]
    requires forall i :: 0 <= i < start ==> s[i] in Whitespace
    requires forall i :: |r| <= i < |t| ==> t[i] in Whitespace
    ensures start + |r| <= |s| && s == s[..start] + r + s[start + |r|..]
    ensures AllWhitespace(s[..start]) && AllWhitespace(s[start + |r|..])
  {
    assert s == s[..start] + t;
    assert t == r + t[|r|..];
    var lead := s[..start];
    forall i | 0 <= i < |lead|
      ensures lead[i] in Whitespace
    {
      assert lead[i] == s[i];
    }
    var trail := t[|r|..];
    forall i | 0 <= i < |trail|
      ensures trail[i] in Whitespace
    {
      assert trail[i] == t[|r| + i];
    }
    assert trail == s[start + |r|..];
  }

  /** Trimming twice is trimming once. */
  lemma {:induction false} TrimIdempotent(s: string)
    ensures Trim(Trim(s)) == Trim(s)
  {
    var r := Trim(s);
    if r != [] {
      assert TrimStart(r) == r;
      assert TrimEnd(r) == r;
    }
  }

  /** Every piece split on sep, trimmed (Splitter.on(sep).trimResults()). */
  function SplitTrim(s: string, sep: char): (ps: seq<string>)
    ensures |ps| == |Split(s, sep)| >= 1
    ensures forall i :: 0 <= i < |ps| ==> ps[i] == Trim(Split(s, sep)[i])
  {
    var pieces := Split(s, sep);
    seq(|pieces|, i requires 0 <= i < |pieces| => Trim(pieces[i]))
  }

  /** ASCII lower case (Python's str.lower on ASCII text). */
  function LowerChar(c: char): char {
    if 'A' <= c <= 'Z' then (c as int + 32) as char else c
  }

  function Lower(s: string): (r: string)
    ensures |r| == |s| && forall i :: 0 <= i < |s| ==> r[i] == LowerChar(s[i])
  {
    if s == [] then [] else [LowerChar(s[0])] + Lower(s[1..])
  }

  /** String.equalsIgnoreCase on ASCII text: same length, equal after lower-casing each char. */
  predicate EqualsIgnoreCase(a: string, b: string) {
    Lower(a) == Lower(b)
  }

  predicate IsDigit(c: char) {
    '0' <= c <= '9'
  }

  /** The value of a string of decimal digits. */
  function DigitsValue(s: string): (n: nat)
    requires forall i :: 0 <= i < |s| ==> IsDigit(s[i])
  {
    if s == [] then 0
    else
      var last := s[|s| - 1];
      assert IsDigit(last);
      DigitsValue(s[..|s| - 1]) * 10 + (last as int - '0' as int)
  }

  /** The shortest decimal digits of n. */
  function Decimal(n: nat): (s: string)
    ensures s != [] && forall i :: 0 <= i < |s| ==> IsDigit(s[i])
    ensures DigitsValue(s) == n
  {
    var d := ('0' as int + n % 10) as char;
    if n < 10 then [d]
    else
      var front := Decimal(n / 10);
      assert (front + [d])[..|front|] == front;
      front + [d]
  }

  const MinInt32: int := -0x8000_0000
  const MaxInt32: int := 0x7FFF_FFFF

  /**
   * Integer.parseInt(s): an optional sign, then one or more ASCII digits, and a value within
   * 32 bits; anything else throws NumberFormatException (an IllegalArgumentException).
   */
  function ParseInt(s: Option<string>): (r: Result<int, JavaError>)
    ensures r.Success? ==>
              && s.Some? && MinInt32 <= r.value <= MaxInt32
              && var t := s.value;
                 var digits := if t != [] && (t[0] == '-' || t[0] == '+') then t[1..] else t;
                 && digits != [] && (forall i :: 0 <= i < |digits| ==> IsDigit(digits[i]))
                 && r.value == if t[0] == '-' then -(DigitsValue(digits) as int) else DigitsValue(digits)
    ensures r.Failure? ==> r.error == IllegalArgument
  {
    if s.None? || s.value == [] then Failure(IllegalArgument)
    else
      var t := s.value;
      var negative := t[0] == '-';
      var digits := if t[0] == '-' || t[0] == '+' then t[1..] else t;
      if digits == [] || exists i :: 0 <= i < |digits| && !IsDigit(digits[i]) then Failure(IllegalArgument)
      else
        var v := if negative then -(DigitsValue(digits) as int) else DigitsValue(digits);
        if v < MinInt32 || MaxInt32 < v then Failure(IllegalArgument) else Success(v)
  }

  /** The decimal text of a 32-bit int (Integer.toString), for the round trip below. */
  function IntText(n: int): string {
    if n < 0 then "-" + Decimal(-n) else Decimal(n)
  }

  /** Every 32-bit int parses back from its decimal text. */
  lemma ParseIntText(n: int)
    requires MinInt32 <= n <= MaxInt32
    ensures ParseInt(Some(IntText(n))) == Success(n)
  {
    var t := IntText(n);
    if n < 0 {
      assert t[1..] == Decimal(-n);
    } else {
      assert t[0] != '-' && t[0] != '+';
    }
  }

  /**
   * String order (Java's compareTo(a, b) < 0, Python's a < b): lexicographic by character,
   * a proper prefix first.
   */
  predicate Less(a: string, b: string) {
    if b == [] then false
    else if a == [] then true
    else if a[0] != b[0] then a[0] < b[0]
    else Less(a[1..], b[1..])
  }

  lemma {:induction false} LessIrreflexive(a: string)
    ensures !Less(a, a)
  {
    if a != [] {
      LessIrreflexive(a[1..]);
    }
  }

  lemma {:induction false} LessTransitive(a: string, b: string, c: string)
    requires Less(a, b) && Less(b, c)
    ensures Less(a, c)
  {
    if a != [] && a[0] == b[0] && b[0] == c[0] {
      LessTransitive(a[1..], b[1..], c[1..]);
    }
  }

  lemma {:induction false} LessTotal(a: string, b: string)
    ensures Less(a, b) || a == b || Less(b, a)
  {
    if a != [] && b != [] && a[0] == b[0] {
      LessTotal(a[1..], b[1..]);
      if a[1..] == b[1..] {
        assert a == [a[0]] + a[1..] && b == [b[0]] + b[1..];
      }
    }
  }

  predicate StartsWith(s: string, prefix: string) {
    |prefix| <= |s| && s[..|prefix|] == prefix
  }

  predicate EndsWith(s: string, suffix: string) {
    |suffix| <= |s| && s[|s| - |suffix|..] == suffix
  }
}

/** Sequence helpers shared by the parsers. */
module Sequences {
  /** The first occurrence of each element, in order (an insertion-ordered set). */
  function FirstOccurrences<T(==,!new)>(xs: seq<T>): (ys: seq<T>)
    ensures forall x :: x in ys <==> x in xs
    ensures |ys| <= |xs|
  {
    if xs == [] then []
    else
      var front := FirstOccurrences(xs[..|xs| - 1]);
      var last := xs[|xs| - 1];
      assert forall x :: x in xs <==> x in xs[..|xs| - 1] || x == last by {
        assert xs == xs[..|xs| - 1] + [last];
      }
      if last in front then front else front + [last]
  }

  predicate Distinct<T(==)>(s: seq<T>) {
    forall i, j :: 0 <= i < j < |s| ==> s[i] != s[j]
  }

  /** Each element is kept once. */
  lemma {:induction false} FirstOccurrencesDistinct<T(!new)>(xs: seq<T>)
    ensures Distinct(FirstOccurrences(xs))
  {
    if xs != [] {
      var front := FirstOccurrences(xs[..|xs| - 1]);
      FirstOccurrencesDistinct(xs[..|xs| - 1]);
      var ys := FirstOccurrences(xs);
      if ys != front {
        assert ys == front + [xs[|xs| - 1]] && xs[|xs| - 1] !in front;
        forall i, j | 0 <= i < j < |ys|
          ensures ys[i] != ys[j]
        {
          if j == |front| {
            assert ys[i] == front[i] && front[i] in front;
          } else {
            assert ys[i] == front[i] && ys[j] == front[j];
          }
        }
      }
    }
  }

  /** Elements already distinct are kept as they are. */
  lemma {:induction false} FirstOccurrencesOfDistinct<T(!new)>(xs: seq<T>)
    requires Distinct(xs)
    ensures FirstOccurrences(xs) == xs
  {
    if xs != [] {
      var front := xs[..|xs| - 1];
      FirstOccurrencesOfDistinct(front);
      assert xs[|xs| - 1] !in front;
      assert front + [xs[|xs| - 1]] == xs;
    }
  }

  /** Appending an element adds it at the end unless it was already there. */
  lemma FirstOccurrencesSnoc<T(!new)>(xs: seq<T>, x: T)
    ensures FirstOccurrences(xs + [x]) == if x in xs then FirstOccurrences(xs) else FirstOccurrences(xs) + [x]
  {
    assert (xs + [x])[..|xs|] == xs;
  }

  /** Some member of a non-empty set: what a loop over a set's elements takes next. */
  lemma Pick<T>(xs: set<T>) returns (x: T)
    requires xs != {}
    ensures x in xs
  {
    if forall y :: y !in xs {
      assert false;
    }
    x :| x in xs;
  }
}
