/** Deduplicating, dropping empty strings and sorting: the
    distinct non-empty values in the default sort order of JavaScript, which
    compares character by character and puts a proper prefix first. */
module SortedStrings {
  import opened Seqs

  /** The default string order of `Array.prototype.sort`. */
  predicate Precedes(a: string, b: string)
    decreases |a|
  {
    b != [] && (a == [] || a[0] < b[0] || (a[0] == b[0] && Precedes(a[1..], b[1..])))
  }

  lemma {:induction false} PrecedesIrreflexive(a: string)
    ensures !Precedes(a, a)
    decreases |a|
  {
    if a != [] {
      PrecedesIrreflexive(a[1..]);
    }
  }

  lemma {:induction false} PrecedesTransitive(a: string, b: string, c: string)
    requires Precedes(a, b) && Precedes(b, c)
    ensures Precedes(a, c)
    decreases |a|
  {
    if a != [] && a[0] == b[0] && b[0] == c[0] {
      PrecedesTransitive(a[1..], b[1..], c[1..]);
    }
  }

  /** Any two different strings are ordered one way or the other. */
  lemma {:induction false} PrecedesTotal(a: string, b: string)
    ensures a == b || Precedes(a, b) || Precedes(b, a)
    decreases |a|
  {
    if a != [] && b != [] && a[0] == b[0] {
      PrecedesTotal(a[1..], b[1..]);
      if a[1..] == b[1..] {
        assert a == [a[0]] + a[1..] && b == [b[0]] + b[1..];
      }
    }
  }

  lemma PrecedesAsymmetric(a: string, b: string)
    requires Precedes(a, b)
    ensures !Precedes(b, a)
  {
    if Precedes(b, a) {
      PrecedesTransitive(a, b, a);
      PrecedesIrreflexive(a);
    }
  }

  /** Ascending with no repeats. */
  predicate StrictlySorted(s: seq<string>) {
    forall i, j :: 0 <= i < j < |s| ==> Precedes(s[i], s[j])
  }

  lemma ConsStrictlySorted(x: string, s: seq<string>)
    requires StrictlySorted(s)
    requires forall y :: y in s ==> Precedes(x, y)
    ensures StrictlySorted([x] + s)
  {
    var r := [x] + s;
    forall i, j | 0 <= i < j < |r|
      ensures Precedes(r[i], r[j])
    {
      if i == 0 {
        assert r[j] == s[j - 1];
      } else {
        assert r[i] == s[i - 1] && r[j] == s[j - 1];
      }
    }
  }

  /** Puts `x` into a strictly sorted sequence, unless it is there already. */
  function Insert(x: string, s: seq<string>): (r: seq<string>)
    requires StrictlySorted(s)
    ensures StrictlySorted(r)
    ensures Elems(r) == Elems(s) + {x}
  {
    if s == [] then [x]
    else if x == s[0] then s
    else if Precedes(x, s[0]) then
      assert forall y :: y in s ==> Precedes(x, y) by {
        forall y | y in s
          ensures Precedes(x, y)
        {
          if y != s[0] {
            var j :| 0 <= j < |s| && s[j] == y;
            PrecedesTransitive(x, s[0], y);
          }
        }
      }
      ConsStrictlySorted(x, s);
      [x] + s
    else
      PrecedesTotal(x, s[0]);
      assert StrictlySorted(s[1..]) by {
        forall i, j | 0 <= i < j < |s[1..]|
          ensures Precedes(s[1..][i], s[1..][j])
        {
          assert s[1..][i] == s[i + 1] && s[1..][j] == s[j + 1];
        }
      }
      var rest := Insert(x, s[1..]);
      assert forall y :: y in rest ==> Precedes(s[0], y) by {
        forall y | y in rest
          ensures Precedes(s[0], y)
        {
          assert y in Elems(rest);
          if y != x {
            var j :| 1 <= j < |s| && s[j] == y;
          }
        }
      }
      ConsStrictlySorted(s[0], rest);
      assert s == [s[0]] + s[1..];
      assert Elems([s[0]] + rest) == {s[0]} + Elems(rest);
      assert Elems(s) == {s[0]} + Elems(s[1..]);
      [s[0]] + rest
  }

  /** The facet option list: every non-empty value exactly once, ascending. */
  function SortedDistinct(values: seq<string>): (r: seq<string>)
    ensures StrictlySorted(r)
    ensures forall v :: v in r <==> v in values && v != ""
  {
    if values == [] then []
    else
      var rest := SortedDistinct(values[1..]);
      if values[0] == "" then rest
      else
        var r := Insert(values[0], rest);
        assert forall v :: v in r <==> v in Elems(r);
        r
  }

  /** The first element of a strictly sorted sequence precedes every later one,
      so it is the least element of the set. */
  lemma HeadIsLeast(s: seq<string>, y: string)
    requires StrictlySorted(s) && y in s && y != s[0]
    ensures Precedes(s[0], y)
  {
  }

  /** A strictly sorted sequence is determined by its elements: whichever way
      the set is enumerated, sorting gives the same list. */
  lemma {:induction false} StrictlySortedUnique(a: seq<string>, b: seq<string>)
    requires StrictlySorted(a) && StrictlySorted(b)
    requires Elems(a) == Elems(b)
    ensures a == b
    decreases |a|
  {
    ElemsEmpty(a);
    ElemsEmpty(b);
    if a != [] {
      assert a[0] in Elems(b);
      assert b != [];
      assert b[0] in Elems(a);
      if a[0] != b[0] {
        HeadIsLeast(a, b[0]);
        HeadIsLeast(b, a[0]);
        PrecedesAsymmetric(a[0], b[0]);
      }
      assert StrictlySorted(a[1..]) by {
        forall i, j | 0 <= i < j < |a[1..]|
          ensures Precedes(a[1..][i], a[1..][j])
        {
          assert a[1..][i] == a[i + 1] && a[1..][j] == a[j + 1];
        }
      }
      assert StrictlySorted(b[1..]) by {
        forall i, j | 0 <= i < j < |b[1..]|
          ensures Precedes(b[1..][i], b[1..][j])
        {
          assert b[1..][i] == b[i + 1] && b[1..][j] == b[j + 1];
        }
      }
      assert Elems(a[1..]) == Elems(b[1..]) by {
        forall y
          ensures y in a[1..] <==> y in b[1..]
        {
          if y in a[1..] {
            var j :| 1 <= j < |a| && a[j] == y;
            PrecedesIrreflexive(a[0]);
            assert y in Elems(a);
            var k :| 0 <= k < |b| && b[k] == y;
            assert b[1..][k - 1] == y;
          }
          if y in b[1..] {
            var j :| 1 <= j < |b| && b[j] == y;
            PrecedesIrreflexive(b[0]);
            assert y in Elems(b);
            var k :| 0 <= k < |a| && a[k] == y;
            assert a[1..][k - 1] == y;
          }
        }
      }
      StrictlySortedUnique(a[1..], b[1..]);
      assert a == [a[0]] + a[1..] && b == [b[0]] + b[1..];
    }
  }
}
