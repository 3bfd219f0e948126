/**
  The few operations of Java's `String` and `StringBuilder` that the table
  transformers call: `startsWith`, `contains`, `trim`, `split` (read as a
  literal split), `replace`, joining with a delimiter and the decimal text
  of an `int`.
 */
module Strings {

  /** `s.startsWith(prefix)`; every string starts with the empty string. */
  predicate StartsWith(s: string, prefix: string)
  {
    |prefix| <= |s| && s[..|prefix|] == prefix
  }

  /** `s.contains(t)`: some suffix of `s` starts with `t`. */
  predicate Contains(s: string, t: string)
    decreases |s|
  {
    StartsWith(s, t) || (s != [] && Contains(s[1..], t))
  }

  // ---------------------------------------------------------------- trim

  /** A character that `String.trim` strips: any code up to and including the space. */
  predicate IsBlank(c: char)
  {
    c <= ' '
  }

  /** The end of the run of blanks starting at `i`. */
  function LeadingEnd(s: string, i: nat): (k: nat)
    requires i <= |s|
    ensures i <= k <= |s|
    ensures forall j :: i <= j < k ==> IsBlank(s[j])
    ensures k < |s| ==> !IsBlank(s[k])
    decreases |s| - i
  {
    if i < |s| && IsBlank(s[i]) then LeadingEnd(s, i + 1) else i
  }

  /** The start of the run of blanks ending at `j`, going back no further than `lo`. */
  function TrailingStart(s: string, lo: nat, j: nat): (k: nat)
    requires lo <= j <= |s|
    ensures lo <= k <= j
    ensures forall m :: k <= m < j ==> IsBlank(s[m])
    ensures k > lo ==> !IsBlank(s[k - 1])
    decreases j - lo
  {
    if j > lo && IsBlank(s[j - 1]) then TrailingStart(s, lo, j - 1) else j
  }

  /** `s.trim()`: the blanks at both ends cut off. */
  function Trim(s: string): (r: string)
    ensures |r| <= |s|
  {
    var a := LeadingEnd(s, 0);
    s[a..TrailingStart(s, a, |s|)]
  }

  /**
    The trimmed string is the slice `s[k..k + |r|]` for the `k` blank
    characters in front, everything cut off on either side is blank, and
    what is left neither starts nor ends with a blank.
   */
  lemma TrimIsSlice(s: string)
    ensures Trim(s) != [] ==> !IsBlank(Trim(s)[0]) && !IsBlank(Trim(s)[|Trim(s)| - 1])
    ensures TrimmedAt(s, Trim(s), LeadingEnd(s, 0))
  {
  }

  /** `r` is the slice of `s` at `k`, and everything of `s` outside it is blank. */
  ghost predicate TrimmedAt(s: string, r: string, k: int)
  {
    && 0 <= k && k + |r| <= |s|
    && s[k..k + |r|] == r
    && (forall i :: 0 <= i < k ==> IsBlank(s[i]))
    && (forall i :: k + |r| <= i < |s| ==> IsBlank(s[i]))
  }

  // ---------------------------------------------------------- split, join

  /** The characters of `s`, one string each. */
  function Chars(s: string): (parts: seq<string>)
    ensures |parts| == |s|
    ensures forall i :: 0 <= i < |s| ==> parts[i] == [s[i]]
    decreases |s|
  {
    if s == [] then [] else [[s[0]]] + Chars(s[1..])
  }

  /**
    `s.split(sep)` with `sep` taken literally: the pieces of `s` between the
    occurrences of `sep` found scanning left to right. An empty separator cuts
    a non-empty string into its characters. Java drops trailing empty pieces;
    every caller here discards empty pieces anyway, so they are kept.
   */
  function Split(s: string, sep: string): (parts: seq<string>)
    ensures |parts| >= 1
  {
    if sep == [] then (if s == [] then [""] else Chars(s))
    else SplitOn(s, sep)
  }

  function SplitOn(s: string, sep: string): (parts: seq<string>)
    requires sep != []
    ensures |parts| >= 1
    decreases |s|
  {
    if |s| < |sep| then [s]
    else if s[..|sep|] == sep then [""] + SplitOn(s[|sep|..], sep)
    else
      var rest := SplitOn(s[1..], sep);
      [[s[0]] + rest[0]] + rest[1..]
  }

  /** The first piece is where the text starts. */
  lemma {:induction false} SplitOnFirstIsPrefix(s: string, sep: string)
    requires sep != []
    ensures |SplitOn(s, sep)[0]| <= |s| && s[..|SplitOn(s, sep)[0]|] == SplitOn(s, sep)[0]
    decreases |s|
  {
    if |s| >= |sep| && s[..|sep|] != sep {
      SplitOnFirstIsPrefix(s[1..], sep);
    }
  }

  /** When the text is cut at all, the first piece is followed by the separator. */
  lemma {:induction false} SplitOnFirstCut(s: string, sep: string)
    requires sep != []
    ensures var first := SplitOn(s, sep)[0];
      |SplitOn(s, sep)| > 1 ==> |first| + |sep| <= |s| && s[..|first| + |sep|] == first + sep
    decreases |s|
  {
    if |s| >= |sep| && s[..|sep|] != sep {
      var rest := SplitOn(s[1..], sep);
      SplitOnFirstCut(s[1..], sep);
      if |rest| > 1 {
        var n := |rest[0]| + |sep|;
        assert s[1..][..n] == rest[0] + sep;
        assert s[..n + 1] == [s[0]] + s[1..][..n];
      }
    }
  }

  lemma {:induction false} ContainsCons(c: char, r: string, sep: string)
    requires !Contains(r, sep) && !StartsWith([c] + r, sep)
    ensures !Contains([c] + r, sep)
  {
    assert ([c] + r)[1..] == r;
  }

  /** No piece of a split on a non-empty separator contains the separator. */
  lemma {:induction false} SplitPiecesFree(s: string, sep: string)
    requires sep != []
    ensures forall p <- Split(s, sep) :: !Contains(p, sep)
    decreases |s|
  {
    if |s| < |sep| {
      assert !Contains(s, sep) by { ShortNotContains(s, sep); }
    } else if s[..|sep|] == sep {
      SplitPiecesFree(s[|sep|..], sep);
      assert !Contains("", sep);
    } else {
      var rest := SplitOn(s[1..], sep);
      SplitPiecesFree(s[1..], sep);
      SplitOnFirstIsPrefix(s[1..], sep);
      var first := [s[0]] + rest[0];
      assert first == s[..|first|];
      assert !StartsWith(first, sep) by {
        if |sep| <= |first| {
          assert first[..|sep|] == s[..|sep|];
        }
      }
      ContainsCons(s[0], rest[0], sep);
      assert rest[0] in rest;
    }
  }

  lemma {:induction false} ShortNotContains(s: string, sep: string)
    requires |s| < |sep|
    ensures !Contains(s, sep)
    decreases |s|
  {
    if s != [] {
      ShortNotContains(s[1..], sep);
    }
  }

  /**
    Each cut is made at the leftmost occurrence of `sep`: no occurrence starts
    inside a piece that is followed by a cut, so the pieces are the ones
    found scanning left to right, even for a separator that overlaps itself.
   */
  lemma SplitLeftmost(s: string, sep: string)
    requires sep != []
    ensures forall i :: 0 <= i < |Split(s, sep)| - 1 ==> !Contains(Split(s, sep)[i] + sep[..|sep| - 1], sep)
  {
    SplitOnLeftmost(s, sep);
  }

  lemma {:induction false} SplitOnLeftmost(s: string, sep: string)
    requires sep != []
    ensures forall i :: 0 <= i < |SplitOn(s, sep)| - 1 ==> !Contains(SplitOn(s, sep)[i] + sep[..|sep| - 1], sep)
    decreases |s|
  {
    if |s| < |sep| {
    } else if s[..|sep|] == sep {
      var rest := SplitOn(s[|sep|..], sep);
      SplitOnLeftmost(s[|sep|..], sep);
      ShortNotContains("" + sep[..|sep| - 1], sep);
      LeftmostCons("", rest, sep);
    } else {
      var rest := SplitOn(s[1..], sep);
      SplitOnLeftmost(s[1..], sep);
      if |rest| > 1 {
        SplitOnFirstCut(s[1..], sep);
        assert s == [s[0]] + s[1..];
        FirstPieceLeftmost(s[0], s[1..], rest[0], sep);
        assert [s[0]] + rest[0] + sep[..|sep| - 1] == [s[0]] + (rest[0] + sep[..|sep| - 1]);
      }
      LeftmostDrop(rest, sep);
      LeftmostCons([s[0]] + rest[0], rest[1..], sep);
    }
  }

  /** Putting a piece in front keeps every cut leftmost, if that piece is cut at its leftmost occurrence too. */
  lemma LeftmostCons(head: string, tail: seq<string>, sep: string)
    requires sep != []
    requires tail != [] ==> !Contains(head + sep[..|sep| - 1], sep)
    requires forall i :: 0 <= i < |tail| - 1 ==> !Contains(tail[i] + sep[..|sep| - 1], sep)
    ensures forall i :: 0 <= i < |[head] + tail| - 1 ==> !Contains(([head] + tail)[i] + sep[..|sep| - 1], sep)
  {
    forall i | 0 <= i < |[head] + tail| - 1 ensures !Contains(([head] + tail)[i] + sep[..|sep| - 1], sep) {
      if 0 < i {
        assert ([head] + tail)[i] == tail[i - 1];
      }
    }
  }

  /** Dropping the first piece keeps every remaining cut leftmost. */
  lemma LeftmostDrop(parts: seq<string>, sep: string)
    requires sep != [] && parts != []
    requires forall i :: 0 <= i < |parts| - 1 ==> !Contains(parts[i] + sep[..|sep| - 1], sep)
    ensures forall i :: 0 <= i < |parts[1..]| - 1 ==> !Contains(parts[1..][i] + sep[..|sep| - 1], sep)
  {
    forall i | 0 <= i < |parts[1..]| - 1 ensures !Contains(parts[1..][i] + sep[..|sep| - 1], sep) {
      assert parts[1..][i] == parts[i + 1];
    }
  }

  /**
    The step of `SplitOnLeftmost` for a first piece that grows by one
    character `c`: when `c + t` does not start with `sep` and `t` starts
    with `r + sep`, no occurrence starts in `c + r` before the cut.
   */
  lemma FirstPieceLeftmost(c: char, t: string, r: string, sep: string)
    requires sep != [] && !StartsWith([c] + t, sep)
    requires |r| + |sep| <= |t| && t[..|r| + |sep|] == r + sep
    requires !Contains(r + sep[..|sep| - 1], sep)
    ensures !Contains([c] + (r + sep[..|sep| - 1]), sep)
  {
    SamePrefix(c, t, r, sep);
    ContainsCons(c, r + sep[..|sep| - 1], sep);
  }

  /** `c + r` and all but the last character of `sep` agrees with `c + t` on `|sep|` characters, when `t` starts with `r + sep`. */
  lemma SamePrefix(c: char, t: string, r: string, sep: string)
    requires sep != [] && !StartsWith([c] + t, sep)
    requires |r| + |sep| <= |t| && t[..|r| + |sep|] == r + sep
    ensures !StartsWith([c] + (r + sep[..|sep| - 1]), sep)
  {
    var u := [c] + (r + sep[..|sep| - 1]);
    forall k | 0 <= k < |sep| ensures u[k] == ([c] + t)[k] {
      if 0 < k {
        assert t[..|r| + |sep|][k - 1] == (r + sep)[k - 1];
      }
    }
    assert u[..|sep|] == ([c] + t)[..|sep|];
  }

  /** The pieces with `sep` between neighbours (`Collectors.joining(sep)`). */
  function Join(parts: seq<string>, sep: string): string
    decreases |parts|
  {
    if |parts| == 0 then ""
    else if |parts| == 1 then parts[0]
    else parts[0] + sep + Join(parts[1..], sep)
  }

  lemma {:induction false} JoinChars(s: string)
    ensures Join(Chars(s), "") == s
    decreases |s|
  {
    if |s| > 1 {
      JoinChars(s[1..]);
      assert Chars(s)[1..] == Chars(s[1..]);
    }
  }

  /** Splitting and joining back with the same separator gives the string back. */
  lemma {:induction false} JoinSplit(s: string, sep: string)
    ensures Join(Split(s, sep), sep) == s
  {
    if sep == [] {
      if s != [] { JoinChars(s); }
    } else {
      JoinSplitOn(s, sep);
    }
  }

  lemma {:induction false} JoinSplitOn(s: string, sep: string)
    requires sep != []
    ensures Join(SplitOn(s, sep), sep) == s
    decreases |s|
  {
    if |s| < |sep| {
    } else if s[..|sep|] == sep {
      var rest := SplitOn(s[|sep|..], sep);
      JoinSplitOn(s[|sep|..], sep);
      JoinCons("", rest, sep);
      assert s == s[..|sep|] + s[|sep|..];
    } else {
      var rest := SplitOn(s[1..], sep);
      JoinSplitOn(s[1..], sep);
      JoinExtendFirst([s[0]], rest, sep);
      assert s == [s[0]] + s[1..];
    }
  }

  /** Joining a piece in front of non-empty pieces puts one separator between. */
  lemma JoinCons(first: string, parts: seq<string>, sep: string)
    requires parts != []
    ensures Join([first] + parts, sep) == first + sep + Join(parts, sep)
  {
    assert ([first] + parts)[1..] == parts;
  }

  /** Glueing text onto the front of the first piece glues it onto the front of the join. */
  lemma JoinExtendFirst(prefix: string, parts: seq<string>, sep: string)
    requires parts != []
    ensures Join([prefix + parts[0]] + parts[1..], sep) == prefix + Join(parts, sep)
  {
    var p := [prefix + parts[0]] + parts[1..];
    if |parts| > 1 {
      assert p[1..] == parts[1..];
      assert Join(p, sep) == prefix + parts[0] + sep + Join(parts[1..], sep);
    }
  }

  /** Where piece `j` starts in `Join(parts, sep)`: each earlier piece and one separator after it. */
  function JoinOffset(parts: seq<string>, sep: string, j: nat): nat
    requires j <= |parts|
    decreases j
  {
    if j == 0 then 0 else |parts[0]| + |sep| + JoinOffset(parts[1..], sep, j - 1)
  }

  /** Piece `j` of a join sits at `JoinOffset(parts, sep, j)`. */
  lemma {:induction false} JoinPartAt(parts: seq<string>, sep: string, j: nat)
    requires j < |parts|
    ensures var o := JoinOffset(parts, sep, j);
      o + |parts[j]| <= |Join(parts, sep)| && Join(parts, sep)[o..o + |parts[j]|] == parts[j]
    decreases j
  {
    if j == 0 {
      if |parts| > 1 {
        assert Join(parts, sep) == parts[0] + (sep + Join(parts[1..], sep));
      }
    } else {
      var rest := Join(parts[1..], sep);
      var head := parts[0] + sep;
      JoinPartAt(parts[1..], sep, j - 1);
      assert Join(parts, sep) == head + rest;
      SliceShift(head, rest, JoinOffset(parts[1..], sep, j - 1), |parts[j]|);
    }
  }

  /** After a prefix, piece `j` of a join sits at the prefix's length plus `JoinOffset(parts, sep, j)`. */
  lemma PrefixedPartAt(prefix: string, parts: seq<string>, sep: string, j: nat)
    requires j < |parts|
    ensures var m := prefix + Join(parts, sep);
      var o := |prefix| + JoinOffset(parts, sep, j);
      && StartsWith(m, prefix)
      && o + |parts[j]| <= |m| && m[o..o + |parts[j]|] == parts[j]
  {
    var joined := Join(parts, sep);
    JoinPartAt(parts, sep, j);
    SliceShift(prefix, joined, JoinOffset(parts, sep, j), |parts[j]|);
    assert (prefix + joined)[..|prefix|] == prefix;
  }

  lemma SliceShift(head: string, rest: string, o: nat, n: nat)
    requires o + n <= |rest|
    ensures (head + rest)[|head| + o..|head| + o + n] == rest[o..o + n]
  {
    forall k | o <= k < o + n
      ensures (head + rest)[|head| + k] == rest[k]
    {
    }
  }

  /** A text that occurs at some position is contained. */
  lemma {:induction false} ContainsAt(s: string, t: string, o: nat)
    requires o + |t| <= |s| && s[o..o + |t|] == t
    ensures Contains(s, t)
    decreases o
  {
    if o > 0 {
      assert s[1..][o - 1..o - 1 + |t|] == s[o..o + |t|];
      ContainsAt(s[1..], t, o - 1);
    }
  }

  // ---------------------------------------------------------------- replace

  /**
    `s.replace(target, replacement)`: every occurrence of `target`, found left
    to right without overlap, becomes `replacement`. An empty target matches
    before every character and at the end.
   */
  function Replace(s: string, target: string, replacement: string): string
    decreases |s|
  {
    if target == [] then InsertEverywhere(s, replacement)
    else if |s| < |target| then s
    else if s[..|target|] == target then replacement + Replace(s[|target|..], target, replacement)
    else [s[0]] + Replace(s[1..], target, replacement)
  }

  function InsertEverywhere(s: string, r: string): string
    decreases |s|
  {
    if s == [] then r else r + [s[0]] + InsertEverywhere(s[1..], r)
  }

  /**
    For a non-empty target, replacing is splitting on the target and joining
    the pieces with the replacement.
   */
  lemma {:induction false} ReplaceIsJoinOfSplit(s: string, target: string, replacement: string)
    requires target != []
    ensures Replace(s, target, replacement) == Join(Split(s, target), replacement)
    decreases |s|
  {
    if |s| < |target| {
    } else if s[..|target|] == target {
      ReplaceIsJoinOfSplit(s[|target|..], target, replacement);
      JoinCons("", SplitOn(s[|target|..], target), replacement);
    } else {
      ReplaceIsJoinOfSplit(s[1..], target, replacement);
      JoinExtendFirst([s[0]], SplitOn(s[1..], target), replacement);
    }
  }

  /** A string without `target` in it comes back unchanged. */
  lemma {:induction false} ReplaceAbsent(s: string, target: string, replacement: string)
    requires target != [] && !Contains(s, target)
    ensures Replace(s, target, replacement) == s
    decreases |s|
  {
    if |s| >= |target| {
      ReplaceAbsent(s[1..], target, replacement);
      assert s == [s[0]] + s[1..];
    }
  }

  /** Replacing a target by itself changes nothing, the empty target included. */
  lemma {:induction false} ReplaceBySelf(s: string, target: string)
    ensures Replace(s, target, target) == s
    decreases |s|
  {
    if target == [] {
      InsertNothing(s);
    } else {
      ReplaceIsJoinOfSplit(s, target, target);
      JoinSplit(s, target);
    }
  }

  lemma {:induction false} InsertNothing(s: string)
    ensures InsertEverywhere(s, "") == s
    decreases |s|
  {
    if s != [] {
      InsertNothing(s[1..]);
      assert s == [s[0]] + s[1..];
    }
  }

  // ------------------------------------------------------- decimal numbers

  /** The digit character for `d`: `'0'` followed by the next nine codes. */
  function DigitChar(d: nat): (c: char)
    requires d < 10
    ensures '0' <= c <= '9' && c as int - '0' as int == d
  {
    ('0' as int + d) as char
  }

  /** The decimal text `StringBuilder.append(int)` writes for a non-negative `n`. */
  function NatToString(n: nat): (s: string)
    ensures |s| >= 1
    ensures forall i :: 0 <= i < |s| ==> '0' <= s[i] <= '9'
    ensures n > 0 ==> s[0] != '0'
    decreases n
  {
    if n < 10 then [DigitChar(n)] else NatToString(n / 10) + [DigitChar(n % 10)]
  }

  /** The value of a string of decimal digits, read most significant first. */
  function DecimalValue(s: string): nat
    requires forall i :: 0 <= i < |s| ==> '0' <= s[i] <= '9'
    decreases |s|
  {
    if s == [] then 0
    else DecimalValue(s[..|s| - 1]) * 10 + (s[|s| - 1] as int - '0' as int)
  }

  /** The decimal text of a count reads back as that count. */
  lemma {:induction false} NatToStringRoundTrip(n: nat)
    ensures DecimalValue(NatToString(n)) == n
    decreases n
  {
    if n >= 10 {
      NatToStringRoundTrip(n / 10);
      var s := NatToString(n / 10) + [DigitChar(n % 10)];
      assert s[..|s| - 1] == NatToString(n / 10);
    }
  }

  /** A non-empty digit string without a leading zero denotes a positive number. */
  lemma {:induction false} LeadingDigitPositive(s: string)
    requires s != [] && s[0] != '0'
    requires forall i :: 0 <= i < |s| ==> '0' <= s[i] <= '9'
    ensures DecimalValue(s) > 0
    decreases |s|
  {
    if |s| > 1 {
      LeadingDigitPositive(s[..|s| - 1]);
    } else {
      assert s[..|s| - 1] == [];
    }
  }

  /**
    The decimal text is the only way to write a count without leading zeros:
    any such digit string is the text of its own value.
   */
  lemma {:induction false} NatToStringCanonical(s: string)
    requires s != [] && (s[0] != '0' || |s| == 1)
    requires forall i :: 0 <= i < |s| ==> '0' <= s[i] <= '9'
    ensures NatToString(DecimalValue(s)) == s
    decreases |s|
  {
    var d := s[|s| - 1] as int - '0' as int;
    if |s| == 1 {
      assert s[..|s| - 1] == [];
      assert DigitChar(d) == s[0];
    } else {
      var init := s[..|s| - 1];
      LeadingDigitPositive(init);
      NatToStringCanonical(init);
      var n := DecimalValue(s);
      assert n == DecimalValue(init) * 10 + d;
      LastDigit(DecimalValue(init), d);
      assert NatToString(n) == NatToString(n / 10) + [DigitChar(n % 10)];
      assert DigitChar(d) == s[|s| - 1];
      assert init + [s[|s| - 1]] == s;
    }
  }

  /** Appending digit `d` to `a` and cutting it off again. */
  lemma LastDigit(a: nat, d: nat)
    requires d < 10
    ensures (a * 10 + d) / 10 == a && (a * 10 + d) % 10 == d
  {
  }
}
