/** Strings as the filter engine sees them: lower-casing, substring search
    (`String.prototype.includes`) and the lexicographic order used both by the
    default `Array.prototype.sort` and, in this model, by `localeCompare`. */
module Strings {

  /** ASCII lower-casing of one character; every other character is kept. */
  function LowerChar(c: char): (d: char)
    ensures !('A' <= d <= 'Z')
    ensures d == c || ('A' <= c <= 'Z' && d as int == c as int + 32)
  {
    if 'A' <= c <= 'Z' then (c as int + 32) as char else c
  }

  /** `toLowerCase`, character by character. */
  function Lower(s: string): (r: string)
    ensures |r| == |s|
    ensures forall i :: 0 <= i < |s| ==> r[i] == LowerChar(s[i])
  {
    seq(|s|, i requires 0 <= i < |s| => LowerChar(s[i]))
  }

  /** Lower-casing twice is lower-casing once: the search box is lower-cased
      when it is read and the term is lower-cased again inside the filter. */
  lemma LowerIdempotent(s: string)
    ensures Lower(Lower(s)) == Lower(s)
  {
    var once := Lower(s);
    var twice := Lower(once);
    forall i | 0 <= i < |s|
      ensures twice[i] == once[i]
    {
      assert !('A' <= once[i] <= 'Z');
    }
  }

  /** `needle` occurs in `hay` at index `i`. */
  predicate OccursAt(hay: string, needle: string, i: int)
  {
    0 <= i <= |hay| && needle <= hay[i..]
  }

  /** `hay.includes(needle)`: try every start position from the left. */
  predicate Contains(hay: string, needle: string)
    ensures needle <= hay ==> Contains(hay, needle)
    ensures Contains(hay, needle) ==> |needle| <= |hay|
    decreases |hay|
  {
    needle <= hay || (|hay| > 0 && Contains(hay[1..], needle))
  }

  /** The scanning definition agrees with the positional one. */
  lemma {:induction false} ContainsIffOccurs(hay: string, needle: string)
    ensures Contains(hay, needle) <==> exists i :: OccursAt(hay, needle, i)
    decreases |hay|
  {
    if needle <= hay {
      assert OccursAt(hay, needle, 0);
    } else if |hay| > 0 {
      var tail := hay[1..];
      ContainsIffOccurs(tail, needle);
      if exists i :: OccursAt(tail, needle, i) {
        var i :| OccursAt(tail, needle, i);
        assert tail[i..] == hay[i + 1..];
        assert OccursAt(hay, needle, i + 1);
      }
      if exists i :: OccursAt(hay, needle, i) {
        var i :| OccursAt(hay, needle, i);
        assert i != 0;
        assert hay[i..] == tail[i - 1..];
        assert OccursAt(tail, needle, i - 1);
      }
    }
  }

  /** Strict lexicographic order on characters, a proper prefix coming first. */
  predicate LexLess(a: string, b: string)
    decreases |a|
  {
    if |a| == 0 then |b| > 0
    else if |b| == 0 then false
    else if a[0] != b[0] then a[0] < b[0]
    else LexLess(a[1..], b[1..])
  }

  lemma {:induction false} LexLessIrreflexive(a: string)
    ensures !LexLess(a, a)
    decreases |a|
  {
    if |a| > 0 {
      LexLessIrreflexive(a[1..]);
    }
  }

  lemma {:induction false} LexLessTransitive(a: string, b: string, c: string)
    requires LexLess(a, b) && LexLess(b, c)
    ensures LexLess(a, c)
    decreases |a|
  {
    if |a| > 0 && a[0] == b[0] && b[0] == c[0] {
      LexLessTransitive(a[1..], b[1..], c[1..]);
    }
  }

  lemma {:induction false} LexLessTotal(a: string, b: string)
    requires a != b
    ensures LexLess(a, b) || LexLess(b, a)
    decreases |a|
  {
    if |a| > 0 && |b| > 0 && a[0] == b[0] {
      assert a == [a[0]] + a[1..];
      assert b == [b[0]] + b[1..];
      LexLessTotal(a[1..], b[1..]);
    }
  }

  lemma LexLessAsymmetric(a: string, b: string)
    requires LexLess(a, b)
    ensures !LexLess(b, a)
  {
    if LexLess(b, a) {
      LexLessTransitive(a, b, a);
      LexLessIrreflexive(a);
    }
  }

  /** Three-way comparison of two strings, the sign convention of `localeCompare`. */
  function CompareStrings(a: string, b: string): (r: int)
    ensures r == -1 || r == 0 || r == 1
    ensures r < 0 <==> LexLess(a, b)
    ensures r == 0 <==> a == b
    ensures r > 0 <==> LexLess(b, a)
  {
    LexLessIrreflexive(a);
    if LexLess(a, b) then
      LexLessAsymmetric(a, b);
      -1
    else if a == b then
      0
    else
      LexLessTotal(a, b);
      LexLessAsymmetric(b, a);
      1
  }
}
