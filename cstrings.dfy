/**
 The key type of the registry and its comparator `cmp_cstr`.

 A key is a NUL-terminated C string. It is modelled by its characters before the
 terminator; `strcmp` reads them as `unsigned char`, so each is a value in 1..255.
 The terminator takes part in the comparison as the value 0, which is what makes a
 proper prefix order first.
 */
module CStrings {

  /** One character of a C string before its terminator, read as `unsigned char`. */
  newtype CChar = c: int | 1 <= c < 256 witness 1

  /** The characters of a C string, without the terminating NUL. */
  type CStr = seq<CChar>

  /**
   `strcmp(a, b)`: walks both strings together and returns the difference of the
   first pair of characters that differ, the terminator counting as 0. Only the sign
   of the result is relied on by the registry.
   */
  function Strcmp(a: CStr, b: CStr): (r: int)
    ensures -255 <= r <= 255
    ensures r == 0 <==> a == b
  {
    if a == [] && b == [] then 0
    else if a == [] then 0 - b[0] as int
    else if b == [] then a[0] as int
    else if a[0] != b[0] then a[0] as int - b[0] as int
    else
      assert a == [a[0]] + a[1..] && b == [b[0]] + b[1..];
      Strcmp(a[1..], b[1..])
  }

  /**
   `cmp_cstr::operator()(a, b)`: `a` orders before `b` when `strcmp(a, b) < 0`. Equal
   keys never order before each other; `LessIsLexicographic` gives the order's meaning.
   */
  function Less(a: CStr, b: CStr): (r: bool)
    ensures r ==> a != b
  {
    Strcmp(a, b) < 0
  }

  /**
   Lexicographic order, stated without recursion: after a common prefix of length `k`,
   either `a` ends while `b` goes on, or `a`'s next character is the smaller one.
   */
  ghost predicate LexLess(a: CStr, b: CStr)
  {
    exists k :: LexLessAt(a, b, k)
  }

  /** `a` and `b` agree on their first `k` characters and `a` is the smaller one at `k`. */
  ghost predicate LexLessAt(a: CStr, b: CStr, k: int)
  {
    && 0 <= k <= |a|
    && k <= |b|
    && a[..k] == b[..k]
    && ((k == |a| && k < |b|) || (k < |a| && k < |b| && a[k] < b[k]))
  }

  /** Swapping the arguments of `strcmp` negates its result. */
  lemma {:induction false} StrcmpAntisymmetric(a: CStr, b: CStr)
    ensures Strcmp(a, b) == -Strcmp(b, a)
  {
    if a != [] && b != [] && a[0] == b[0] {
      StrcmpAntisymmetric(a[1..], b[1..]);
    }
  }

  /** `cmp_cstr` is the lexicographic order on the characters, in both directions. */
  lemma {:induction false} LessIsLexicographic(a: CStr, b: CStr)
    ensures Less(a, b) <==> LexLess(a, b)
  {
    if a == [] || b == [] || a[0] != b[0] {
      if Less(a, b) {
        assert LexLessAt(a, b, 0);
      }
      if LexLess(a, b) {
        var k :| LexLessAt(a, b, k);
        if k > 0 {
          assert a[..k][0] == b[..k][0];
        }
      }
    } else {
      LessIsLexicographic(a[1..], b[1..]);
      if Less(a, b) {
        var k :| LexLessAt(a[1..], b[1..], k);
        assert a[..k + 1] == [a[0]] + a[1..][..k] == [b[0]] + b[1..][..k] == b[..k + 1];
        assert LexLessAt(a, b, k + 1);
      }
      if LexLess(a, b) {
        var k :| LexLessAt(a, b, k);
        assert a[1..][..k - 1] == a[..k][1..] == b[..k][1..] == b[1..][..k - 1];
        assert LexLessAt(a[1..], b[1..], k - 1);
      }
    }
  }

  /** No key orders before itself. */
  lemma LessIrreflexive(a: CStr)
    ensures !Less(a, a)
  {
  }

  /** At most one of two keys orders before the other. */
  lemma LessAsymmetric(a: CStr, b: CStr)
    ensures Less(a, b) ==> !Less(b, a)
  {
    StrcmpAntisymmetric(a, b);
  }

  /** Two keys with different characters are always ordered one way or the other. */
  lemma LessConnected(a: CStr, b: CStr)
    ensures a == b || Less(a, b) || Less(b, a)
  {
    StrcmpAntisymmetric(a, b);
  }

  /** `cmp_cstr` is transitive. */
  lemma {:induction false} LessTransitive(a: CStr, b: CStr, c: CStr)
    requires Less(a, b) && Less(b, c)
    ensures Less(a, c)
  {
    if a != [] && b != [] && c != [] && a[0] == b[0] == c[0] {
      LessTransitive(a[1..], b[1..], c[1..]);
    }
  }

  /** A proper prefix orders before the longer string: its terminator meets a character. */
  lemma {:induction false} ProperPrefixFirst(a: CStr, b: CStr)
    requires |a| < |b| && a == b[..|a|]
    ensures Less(a, b)
  {
    if a != [] {
      assert a[1..] == b[1..][..|a| - 1];
      ProperPrefixFirst(a[1..], b[1..]);
    }
  }
}
