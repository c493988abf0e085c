/**
 * The run-length scanner shared by every indicator script: the longest
 * stretch of consecutive elements equal to 1 in a binary mask (a longest
 * dry, wet or hot spell).
 */
module RunLength {
  import opened Common

  /** Whether s[i..i+len] exists and holds only 1s. */
  predicate OnesAt(s: seq<int>, i: int, len: nat)
  {
    0 <= i && i + len <= |s| && forall k :: i <= k < i + len ==> s[k] == 1
  }

  /** Number of 1s in s. */
  function CountOnes(s: seq<int>): (n: nat)
    ensures n <= |s|
  {
    if |s| == 0 then 0 else CountOnes(s[..|s| - 1]) + (if s[|s| - 1] == 1 then 1 else 0)
  }

  /** Length of the maximal run of 1s that ends at the end of s. */
  function TrailingOnes(s: seq<int>): (n: nat)
    ensures n <= |s|
    ensures forall k :: |s| - n <= k < |s| ==> s[k] == 1
    ensures n < |s| ==> s[|s| - 1 - n] != 1
  {
    if |s| == 0 || s[|s| - 1] != 1 then 0 else TrailingOnes(s[..|s| - 1]) + 1
  }

  /** Length of the longest run of 1s in s: the specification of the scanner. */
  function LongestRun(s: seq<int>): nat
  {
    if |s| == 0 then 0 else Max(LongestRun(s[..|s| - 1]), TrailingOnes(s))
  }

  /**
   * The scanner: one pass keeping the length of the current run of 1s and
   * the longest run seen so far.
   */
  method ExtremeLength(a: array<int>) returns (maxLength: nat)
    ensures maxLength == LongestRun(a[..])
  {
    maxLength := 0;
    var currentLength: nat := 0;
    for i := 0 to a.Length
      invariant currentLength == TrailingOnes(a[..i])
      invariant maxLength == LongestRun(a[..i])
    {
      assert a[..i + 1][..i] == a[..i];
      if a[i] == 1 {
        currentLength := currentLength + 1;
        maxLength := Max(maxLength, currentLength);
      } else {
        currentLength := 0;
      }
    }
    assert a[..a.Length] == a[..];
  }

  /** Every run of 1s in s is at most as long as the scanner's answer. */
  lemma {:induction false} LongestRunIsMaximal(s: seq<int>, i: int, len: nat)
    requires OnesAt(s, i, len)
    ensures len <= LongestRun(s)
  {
    if len == 0 {
    } else if i + len == |s| {
      assert TrailingOnes(s) >= len;
    } else {
      var p := s[..|s| - 1];
      assert OnesAt(p, i, len) by {
        forall k | i <= k < i + len ensures p[k] == 1 { assert p[k] == s[k]; }
      }
      LongestRunIsMaximal(p, i, len);
    }
  }

  /** The scanner's answer is the length of an actual run of 1s in s. */
  lemma {:induction false} LongestRunAttained(s: seq<int>)
    ensures LongestRun(s) <= |s|
    ensures exists i :: OnesAt(s, i, LongestRun(s))
  {
    if |s| == 0 {
      assert OnesAt(s, 0, 0);
    } else {
      var p := s[..|s| - 1];
      LongestRunAttained(p);
      if LongestRun(s) == TrailingOnes(s) {
        assert OnesAt(s, |s| - TrailingOnes(s), LongestRun(s));
      } else {
        var i :| OnesAt(p, i, LongestRun(p));
        assert OnesAt(s, i, LongestRun(s)) by {
          forall k | i <= k < i + LongestRun(p) ensures s[k] == 1 { assert s[k] == p[k]; }
        }
      }
    }
  }

  /** The answer is 0 exactly when no element is 1 (in particular for an empty mask). */
  lemma LongestRunZeroIff(s: seq<int>)
    ensures LongestRun(s) == 0 <==> forall k :: 0 <= k < |s| ==> s[k] != 1
  {
    if exists k :: 0 <= k < |s| && s[k] == 1 {
      var k :| 0 <= k < |s| && s[k] == 1;
      LongestRunIsMaximal(s, k, 1);
    } else {
      LongestRunAttained(s);
      var i :| OnesAt(s, i, LongestRun(s));
      assert i < |s| ==> s[i] != 1;
    }
  }

  /** A run of 1s cannot be longer than the number of 1s. */
  lemma {:induction false} LongestRunAtMostOnes(s: seq<int>)
    ensures LongestRun(s) <= CountOnes(s)
  {
    if |s| > 0 {
      var p := s[..|s| - 1];
      LongestRunAtMostOnes(p);
      TrailingAtMostOnes(s);
    }
  }

  lemma {:induction false} TrailingAtMostOnes(s: seq<int>)
    ensures TrailingOnes(s) <= CountOnes(s)
  {
    if |s| > 0 && s[|s| - 1] == 1 {
      TrailingAtMostOnes(s[..|s| - 1]);
    }
  }
}
