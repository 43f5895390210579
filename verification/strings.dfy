/** The JavaScript string operations the core relies on, over `string`
    (= `seq<char>`): `trim`, `startsWith`, `includes`, `indexOf`,
    `lastIndexOf`, `split('\n')`, the ASCII part of case-insensitive
    matching, and the decimal rendering of integers used in ids and labels. */
module Strings {
  import opened Maybe
  import opened Seqs

  /** The code points `String.prototype.trim` removes: ECMAScript WhiteSpace
      (tab, vertical tab, form feed, space, no-break space, the byte order mark
      and the Unicode space separators) and LineTerminator (LF, CR, LS, PS). */
  predicate IsSpace(c: char) {
    || c == '\t' || c == '\n' || c == '\U{000B}' || c == '\U{000C}' || c == '\r'
    || c == ' ' || c == '\U{00A0}' || c == '\U{1680}'
    || ('\U{2000}' <= c <= '\U{200A}')
    || c == '\U{2028}' || c == '\U{2029}' || c == '\U{202F}' || c == '\U{205F}'
    || c == '\U{3000}' || c == '\U{FEFF}'
  }

  /** Every character is white space (the empty string is blank). */
  predicate Blank(s: string) {
    forall k :: 0 <= k < |s| ==> IsSpace(s[k])
  }

  /** No white space at either end. */
  predicate Unpadded(s: string) {
    s == [] || (!IsSpace(s[0]) && !IsSpace(s[|s| - 1]))
  }

  /** `r` is what is left of `s` once the `i` characters before it and
      everything after it, all white space, are cut away. */
  predicate PaddedBy(s: string, i: nat, r: string) {
    && i + |r| <= |s|
    && r == s[i..i + |r|]
    && Blank(s[..i])
    && Blank(s[i + |r|..])
  }

  lemma BlankDropFirst(s: string)
    requires s != [] && IsSpace(s[0])
    ensures Blank(s) <==> Blank(s[1..])
  {
    if Blank(s[1..]) {
      forall k | 0 <= k < |s|
        ensures IsSpace(s[k])
      {
        if k > 0 {
          assert s[k] == s[1..][k - 1];
        }
      }
    }
  }

  lemma BlankDropLast(s: string)
    requires s != [] && IsSpace(s[|s| - 1])
    ensures Blank(s) <==> Blank(s[..|s| - 1])
  {
    if Blank(s[..|s| - 1]) {
      forall k | 0 <= k < |s|
        ensures IsSpace(s[k])
      {
        if k < |s| - 1 {
          assert s[k] == s[..|s| - 1][k];
        }
      }
    }
  }

  /** `String.prototype.trim`: white space is stripped from the front, then
      from the back. The result has no white space at either end, and it is
      empty exactly when `s` is blank. */
  function Trim(s: string): (r: string)
    ensures |r| <= |s|
    ensures Unpadded(r)
    ensures r == [] <==> Blank(s)
    decreases |s|
  {
    if s != [] && IsSpace(s[0]) then
      BlankDropFirst(s);
      Trim(s[1..])
    else if s != [] && IsSpace(s[|s| - 1]) then
      BlankDropLast(s);
      Trim(s[..|s| - 1])
    else s
  }

  lemma PaddedByFront(s: string, i: nat, r: string)
    requires s != [] && IsSpace(s[0]) && PaddedBy(s[1..], i, r)
    ensures PaddedBy(s, i + 1, r)
  {
    var t := s[1..];
    var head := s[..i + 1];
    forall k | 0 <= k < |head|
      ensures IsSpace(head[k])
    {
      if k > 0 {
        assert head[k] == t[..i][k - 1];
      }
    }
    assert t[i..i + |r|] == s[i + 1..i + 1 + |r|];
    assert t[i + |r|..] == s[i + 1 + |r|..];
  }

  lemma PaddedByBack(s: string, i: nat, r: string)
    requires s != [] && IsSpace(s[|s| - 1]) && PaddedBy(s[..|s| - 1], i, r)
    ensures PaddedBy(s, i, r)
  {
    var t := s[..|s| - 1];
    assert t[..i] == s[..i];
    assert t[i..i + |r|] == s[i..i + |r|];
    var tail := s[i + |r|..];
    forall k | 0 <= k < |tail|
      ensures IsSpace(tail[k])
    {
      if k < |tail| - 1 {
        assert tail[k] == t[i + |r|..][k];
      }
    }
  }

  /** What `Trim` removes is white space around a contiguous slice. */
  lemma {:induction false} TrimIsSlice(s: string)
    ensures exists i: nat :: PaddedBy(s, i, Trim(s))
    decreases |s|
  {
    var r := Trim(s);
    if s != [] && IsSpace(s[0]) {
      TrimIsSlice(s[1..]);
      var i: nat :| PaddedBy(s[1..], i, r);
      PaddedByFront(s, i, r);
    } else if s != [] && IsSpace(s[|s| - 1]) {
      TrimIsSlice(s[..|s| - 1]);
      var i: nat :| PaddedBy(s[..|s| - 1], i, r);
      PaddedByBack(s, i, r);
    } else {
      assert PaddedBy(s, 0, r);
    }
  }

  /** Trimming adds no character: one absent from `s` is absent from the result. */
  lemma TrimKeepsAbsent(s: string, c: char)
    requires c !in s
    ensures c !in Trim(s)
  {
    var r := Trim(s);
    TrimIsSlice(s);
    var i: nat :| PaddedBy(s, i, r);
    forall m | 0 <= m < |r|
      ensures r[m] != c
    {
      assert r[m] == s[i + m];
    }
  }

  /** Trimming a string that has no white space at its ends changes nothing. */
  lemma TrimUnpaddedIsIdentity(s: string)
    requires Unpadded(s)
    ensures Trim(s) == s
  {
  }

  lemma TrimIdempotent(s: string)
    ensures Trim(Trim(s)) == Trim(s)
  {
    TrimUnpaddedIsIdentity(Trim(s));
  }

  predicate StartsWith(s: string, prefix: string) {
    |prefix| <= |s| && s[..|prefix|] == prefix
  }

  /** `String.prototype.includes`. */
  predicate Contains(s: string, sub: string)
    decreases |s|
  {
    StartsWith(s, sub) || (s != [] && Contains(s[1..], sub))
  }

  /** `includes` holds exactly when `sub` occurs at some offset of `s`. */
  lemma {:induction false} ContainsIffOccurs(s: string, sub: string)
    ensures Contains(s, sub) <==> exists i :: 0 <= i <= |s| && StartsWith(s[i..], sub)
    decreases |s|
  {
    if s == [] {
      if exists i :: 0 <= i <= |s| && StartsWith(s[i..], sub) {
        var i :| 0 <= i <= |s| && StartsWith(s[i..], sub);
        assert s[i..] == s;
      }
    } else {
      ContainsIffOccurs(s[1..], sub);
      if Contains(s, sub) {
        if StartsWith(s, sub) {
          assert s[0..] == s;
        } else {
          var i :| 0 <= i <= |s[1..]| && StartsWith(s[1..][i..], sub);
          assert s[1..][i..] == s[i + 1..];
        }
      }
      if exists i :: 0 <= i <= |s| && StartsWith(s[i..], sub) {
        var i :| 0 <= i <= |s| && StartsWith(s[i..], sub);
        if i == 0 {
          assert s[i..] == s;
        } else {
          assert s[1..][i - 1..] == s[i..];
        }
      }
    }
  }

  /** `String.prototype.indexOf` for one character: the first position, or -1. */
  function IndexOf(s: string, c: char): (r: int)
    ensures -1 <= r < |s|
    ensures r >= 0 ==> s[r] == c
    ensures forall k :: 0 <= k < |s| && (r < 0 || k < r) ==> s[k] != c
  {
    if s == [] then -1
    else if s[0] == c then 0
    else
      var r := IndexOf(s[1..], c);
      if r < 0 then -1 else r + 1
  }

  /** What follows the last occurrence of `c` in `s` (the slice after
      `lastIndexOf`), or `None` when `c` does not
      occur: a suffix of `s` free of `c`, right after a `c`. */
  function AfterLast(s: string, c: char): (r: Option<string>)
    ensures r.None? <==> c !in s
    ensures r.Some? ==> |r.value| < |s| && s[|s| - |r.value| - 1] == c
    ensures r.Some? ==> r.value == s[|s| - |r.value|..] && c !in r.value
  {
    if s == [] then None
    else if s[|s| - 1] == c then Some([])
    else match AfterLast(s[..|s| - 1], c)
      case None => None
      case Some(t) => Some(t + [s[|s| - 1]])
  }

  /** The inverse of `split('\n')`: the pieces glued back with line feeds. */
  function JoinLines(parts: seq<string>): string
    requires |parts| >= 1
  {
    parts[0] + FeedEach(parts[1..])
  }

  /** A line feed before each piece. */
  function FeedEach(parts: seq<string>): string {
    if parts == [] then "" else "\n" + parts[0] + FeedEach(parts[1..])
  }

  lemma JoinLinesExtendHead(c: char, parts: seq<string>)
    requires |parts| >= 1
    ensures JoinLines([[c] + parts[0]] + parts[1..]) == [c] + JoinLines(parts)
  {
    var q := [[c] + parts[0]] + parts[1..];
    assert q[1..] == parts[1..];
    var tail := FeedEach(parts[1..]);
    assert ([c] + parts[0]) + tail == [c] + (parts[0] + tail);
  }

  /** `split('\n')`: at least one piece, no piece holds a line feed, and
      joining the pieces gives the text back. */
  function SplitLines(s: string): (parts: seq<string>)
    ensures |parts| >= 1
    ensures forall k :: 0 <= k < |parts| ==> '\n' !in parts[k]
    ensures JoinLines(parts) == s
  {
    if s == [] then [""]
    else
      var rest := SplitLines(s[1..]);
      if s[0] == '\n' then
        assert ([""] + rest)[1..] == rest;
        [""] + rest
      else
        JoinLinesExtendHead(s[0], rest);
        assert [s[0]] + s[1..] == s;
        [[s[0]] + rest[0]] + rest[1..]
  }

  lemma {:induction false} SplitLinesOfPrefix(x: string, y: string)
    requires '\n' !in x
    ensures SplitLines(x + y) == [x + SplitLines(y)[0]] + SplitLines(y)[1..]
    decreases |x|
  {
    if x != [] {
      TailOfAppend(x, y);
      SplitLinesOfPrefix(x[1..], y);
      AppendAssoc([x[0]], x[1..], SplitLines(y)[0]);
      assert [x[0]] + x[1..] == x;
    } else {
      assert x + y == y;
      assert x + SplitLines(y)[0] == SplitLines(y)[0];
      assert [SplitLines(y)[0]] + SplitLines(y)[1..] == SplitLines(y);
    }
  }

  lemma SplitLinesAfterFeed(tail: string)
    ensures SplitLines("\n" + tail) == [""] + SplitLines(tail)
  {
    assert ("\n" + tail)[1..] == tail;
  }

  lemma JoinLinesCons(parts: seq<string>)
    requires |parts| >= 2
    ensures JoinLines(parts) == parts[0] + ("\n" + JoinLines(parts[1..]))
  {
    assert parts[0] + "\n" + JoinLines(parts[1..]) == parts[0] + ("\n" + JoinLines(parts[1..]));
  }

  /** The other half of the round trip: splitting joined line-feed-free
      pieces gives the pieces back. */
  lemma {:induction false} SplitJoinLines(parts: seq<string>)
    requires |parts| >= 1
    requires forall k :: 0 <= k < |parts| ==> '\n' !in parts[k]
    ensures SplitLines(JoinLines(parts)) == parts
    decreases |parts|
  {
    if |parts| == 1 {
      SplitLinesOfPrefix(parts[0], "");
      assert parts[0] + "" == parts[0];
    } else {
      var tail := JoinLines(parts[1..]);
      SplitJoinLines(parts[1..]);
      SplitLinesAfterFeed(tail);
      SplitLinesOfPrefix(parts[0], "\n" + tail);
      JoinLinesCons(parts);
      assert parts[0] + "" == parts[0];
      assert [parts[0]] + parts[1..] == parts;
    }
  }

  /** ASCII case folding, the only folding a case-insensitive JavaScript
      regular expression applies between an ASCII pattern letter and the
      input (non-ASCII characters never fold onto ASCII ones there). */
  function LowerAscii(c: char): char {
    if 'A' <= c <= 'Z' then (c as int + 32) as char else c
  }

  predicate EqualsIgnoreCase(a: string, b: string) {
    |a| == |b| && forall k :: 0 <= k < |a| ==> LowerAscii(a[k]) == LowerAscii(b[k])
  }

  predicate IsDigit(c: char) {
    '0' <= c <= '9'
  }

  predicate AllDigits(s: string) {
    forall k :: 0 <= k < |s| ==> IsDigit(s[k])
  }

  function DigitChar(d: nat): (c: char)
    requires d < 10
    ensures IsDigit(c)
    ensures c as int - '0' as int == d
  {
    ('0' as int + d) as char
  }

  /** The decimal rendering of a non-negative integer, as a template literal
      or `toString` produces it: digits only, no leading zero. */
  function NatToString(n: nat): (r: string)
    ensures r != [] && AllDigits(r)
    ensures |r| > 1 ==> r[0] != '0'
  {
    if n < 10 then [DigitChar(n)] else NatToString(n / 10) + [DigitChar(n % 10)]
  }

  /** The value of a string of decimal digits. */
  function DigitsValue(s: string): nat
    requires AllDigits(s)
  {
    if s == [] then 0 else DigitsValue(s[..|s| - 1]) * 10 + (s[|s| - 1] as int - '0' as int)
  }

  /** Reading the digits back gives the number. */
  lemma {:induction false} NatToStringRoundTrip(n: nat)
    ensures DigitsValue(NatToString(n)) == n
    decreases n
  {
    if n >= 10 {
      var r := NatToString(n);
      NatToStringRoundTrip(n / 10);
      assert r[..|r| - 1] == NatToString(n / 10);
    }
  }

  lemma NatToStringInjective(a: nat, b: nat)
    ensures NatToString(a) == NatToString(b) <==> a == b
  {
    NatToStringRoundTrip(a);
    NatToStringRoundTrip(b);
  }

  /** After a run of digits, the first occurrence of a non-digit `c` is the
      one that ends the run. */
  lemma FirstAfterDigits(a: string, c: char, x: string)
    requires AllDigits(a) && !IsDigit(c)
    ensures IndexOf(a + [c] + x, c) == |a|
  {
    var l := a + [c] + x;
    assert l[|a|] == c;
    forall k | 0 <= k < |a|
      ensures l[k] != c
    {
      assert l[k] == a[k];
    }
  }

  /** A run of digits, a separator that is not a digit and a rest can be
      read back apart: such a concatenation determines its parts. */
  lemma DigitsThenSeparator(a: string, c: char, x: string, b: string, y: string)
    requires AllDigits(a) && AllDigits(b) && !IsDigit(c)
    requires a + [c] + x == b + [c] + y
    ensures a == b && x == y
  {
    var l := a + [c] + x;
    FirstAfterDigits(a, c, x);
    FirstAfterDigits(b, c, y);
    assert a == l[..|a|] == b;
    assert x == l[|a| + 1..] == y;
  }

  /** `BigInt.prototype.toString()`: a minus sign before the digits of a
      negative number. */
  function IntToString(i: int): (r: string)
    ensures r != []
    ensures i < 0 <==> r[0] == '-'
  {
    if i < 0 then "-" + NatToString(-i) else NatToString(i)
  }

  lemma IntToStringInjective(a: int, b: int)
    ensures IntToString(a) == IntToString(b) <==> a == b
  {
    if IntToString(a) == IntToString(b) {
      if a < 0 {
        assert IntToString(a)[1..] == NatToString(-a);
        assert IntToString(b)[1..] == NatToString(-b);
        NatToStringInjective(-a, -b);
      } else {
        NatToStringInjective(a, b);
      }
    }
  }

  /** Two strings that share a prefix are equal exactly when what follows it is. */
  lemma PrefixCancel(p: string, x: string, y: string)
    ensures p + x == p + y <==> x == y
  {
    if p + x == p + y {
      assert (p + x)[|p|..] == x;
      assert (p + y)[|p|..] == y;
    }
  }
}
