/** Trailing-zero truncation of a formatted number (`truncate_zeroes`),
    in the two variants the repository has: the current one of
    src/common.rs and the older one of examples/linalg/src/matrix.rs.
    Both scan the characters left to right, count zeros once a decimal
    point has been seen, and cut the string just after the tenth counted
    zero. Strings are sequences of ASCII characters, so a character index
    is also a byte index. */
module Truncation {
  import opened Matrices

  /** Which of the two scans is meant. */
  datatype Rule =
    | Current  // src/common.rs: counting also needs a digit 1-9 first; 1-9 never reset
    | Legacy   // examples/linalg: every character other than '.' and '0' resets

  /** The scan's three pieces of state. */
  datatype Scan = Scan(sepFound: bool, nonzeroFound: bool, zeroes: nat)

  const Start := Scan(false, false, 0)

  /** The counter value at which the string is cut. */
  const CutCount: nat := 10

  predicate IsNonzeroDigit(c: char)
  {
    '1' <= c <= '9'
  }

  /** One iteration of the scan, without the early return. */
  function Step(rule: Rule, st: Scan, c: char): (next: Scan)
    ensures next.zeroes == 0 || next.zeroes == st.zeroes || next.zeroes == st.zeroes + 1
    ensures next.zeroes == st.zeroes + 1 ==> c == '0' && st.sepFound
    ensures rule.Current? && next.zeroes == st.zeroes + 1 ==> st.nonzeroFound
    ensures next.sepFound <==> st.sepFound || c == '.'
  {
    match rule
    case Current =>
      if c == '.' then st.(sepFound := true)
      else if IsNonzeroDigit(c) then st.(nonzeroFound := true)
      else if st.sepFound && st.nonzeroFound && c == '0' then st.(zeroes := st.zeroes + 1)
      else st.(zeroes := 0)
    case Legacy =>
      if c == '.' then st.(sepFound := true)
      else if st.sepFound && c == '0' then st.(zeroes := st.zeroes + 1)
      else st.(zeroes := 0)
  }

  /** The index at which the scan started at `i` in state `st` returns
      early, if it does. */
  function CutPoint(rule: Rule, s: string, i: nat, st: Scan): (r: Option<nat>)
    requires i <= |s| && st.zeroes < CutCount
    ensures r.Some? ==> i <= r.value < |s| && s[r.value] == '0'
    decreases |s| - i
  {
    if i == |s| then None
    else
      var next := Step(rule, st, s[i]);
      if next.zeroes == CutCount then Some(i) else CutPoint(rule, s, i + 1, next)
  }

  /** `truncate_zeroes`: the input up to and including the character at
      which the counter reached ten, or the whole input. The result is
      always a prefix of the input, and a cut one ends with that zero. */
  function Truncated(rule: Rule, s: string): (t: string)
    ensures |t| <= |s| && t == s[..|t|]
    ensures CutPoint(rule, s, 0, Start).Some? ==>
      |t| == CutPoint(rule, s, 0, Start).value + 1 && t[|t| - 1] == '0'
  {
    match CutPoint(rule, s, 0, Start)
    case Some(j) => s[..j + 1]
    case None => s
  }

  // ---------------------------------------------------------------------
  // A reference definition: the counter as a fold over a prefix

  /** The scan state after reading all of `s`, ignoring the early return. */
  function Counter(rule: Rule, s: string): Scan
  {
    if s == [] then Start else Step(rule, Counter(rule, s[..|s| - 1]), s[|s| - 1])
  }

  /** The counter after the first `n` characters. */
  function CounterAt(rule: Rule, s: string, n: nat): Scan
    requires n <= |s|
  {
    Counter(rule, s[..n])
  }

  lemma CounterStep(rule: Rule, s: string, i: nat)
    requires i < |s|
    ensures CounterAt(rule, s, i + 1) == Step(rule, CounterAt(rule, s, i), s[i])
  {
    assert s[..i + 1][..i] == s[..i];
  }

  lemma {:induction false} CutPointIsFirstTen(rule: Rule, s: string, i: nat)
    requires i <= |s| && CounterAt(rule, s, i).zeroes < CutCount
    ensures CutPoint(rule, s, i, CounterAt(rule, s, i)).Some? ==>
      var j := CutPoint(rule, s, i, CounterAt(rule, s, i)).value;
      CounterAt(rule, s, j + 1).zeroes == CutCount &&
      forall n | i < n <= j :: CounterAt(rule, s, n).zeroes < CutCount
    ensures CutPoint(rule, s, i, CounterAt(rule, s, i)).None? ==>
      forall n | i < n <= |s| :: CounterAt(rule, s, n).zeroes < CutCount
    decreases |s| - i
  {
    if i < |s| {
      CounterStep(rule, s, i);
      if CounterAt(rule, s, i + 1).zeroes != CutCount {
        CutPointIsFirstTen(rule, s, i + 1);
      }
    }
  }

  /** The cut happens after the first character at which the counter,
      run over the whole prefix read so far, equals ten; with no such
      character nothing is cut. */
  lemma TruncatedAtFirstTen(rule: Rule, s: string)
    ensures |Truncated(rule, s)| < |s| ==>
      var n := |Truncated(rule, s)|;
      n > 0 && CounterAt(rule, s, n).zeroes == CutCount &&
      forall k | 0 < k < n :: CounterAt(rule, s, k).zeroes < CutCount
    ensures (forall k | 0 < k <= |s| :: CounterAt(rule, s, k).zeroes < CutCount) ==>
      Truncated(rule, s) == s
  {
    assert s[..0] == [];
    assert CounterAt(rule, s, 0) == Start;
    CutPointIsFirstTen(rule, s, 0);
  }

  // ---------------------------------------------------------------------
  // Properties

  lemma {:induction false} NoSeparatorNoCut(rule: Rule, s: string, i: nat, st: Scan)
    requires i <= |s| && st.zeroes < CutCount
    requires !st.sepFound && forall k | i <= k < |s| :: s[k] != '.'
    ensures CutPoint(rule, s, i, st).None?
    decreases |s| - i
  {
    if i < |s| {
      NoSeparatorNoCut(rule, s, i + 1, Step(rule, st, s[i]));
    }
  }

  /** Zeros are only counted after a '.', so a string without one is
      returned unchanged. */
  lemma NoSeparatorUnchanged(rule: Rule, s: string)
    requires '.' !in s
    ensures Truncated(rule, s) == s
  {
    NoSeparatorNoCut(rule, s, 0, Start);
  }

  lemma {:induction false} CutPointOnPrefix(rule: Rule, s: string, i: nat, st: Scan, j: nat)
    requires i <= |s| && st.zeroes < CutCount
    requires CutPoint(rule, s, i, st) == Some(j)
    ensures i <= j + 1 <= |s|
    ensures CutPoint(rule, s[..j + 1], i, st) == Some(j)
    decreases |s| - i
  {
    var t := s[..j + 1];
    assert t[i] == s[i];
    var next := Step(rule, st, s[i]);
    if next.zeroes != CutCount {
      CutPointOnPrefix(rule, s, i + 1, next, j);
    }
  }

  /** Truncating a second time changes nothing. */
  lemma TruncatedIdempotent(rule: Rule, s: string)
    ensures Truncated(rule, Truncated(rule, s)) == Truncated(rule, s)
  {
    match CutPoint(rule, s, 0, Start)
    case Some(j) => CutPointOnPrefix(rule, s, 0, Start, j);
    case None =>
  }

  /** In the current rule a counted zero needs a '.' and a digit 1-9
      somewhere before it. */
  lemma {:induction false} CurrentCountNeedsSeparatorAndDigit(s: string, i: nat, st: Scan)
    requires i <= |s| && st.zeroes < CutCount
    requires st.sepFound ==> exists p | 0 <= p < i :: s[p] == '.'
    requires st.nonzeroFound ==> exists q | 0 <= q < i :: IsNonzeroDigit(s[q])
    ensures CutPoint(Current, s, i, st).Some? ==>
      var j := CutPoint(Current, s, i, st).value;
      (exists p | 0 <= p < j :: s[p] == '.') && (exists q | 0 <= q < j :: IsNonzeroDigit(s[q]))
    decreases |s| - i
  {
    if i < |s| {
      var next := Step(Current, st, s[i]);
      if next.zeroes != CutCount {
        assert next.nonzeroFound ==> exists q | 0 <= q < i + 1 :: IsNonzeroDigit(s[q]) by {
          if !st.nonzeroFound && next.nonzeroFound {
            assert IsNonzeroDigit(s[i]);
          }
        }
        CurrentCountNeedsSeparatorAndDigit(s, i + 1, next);
      }
    }
  }

  lemma CurrentCutNeedsSeparatorAndDigit(s: string)
    requires CutPoint(Current, s, 0, Start).Some?
    ensures var j := CutPoint(Current, s, 0, Start).value;
      (exists p | 0 <= p < j :: s[p] == '.') && (exists q | 0 <= q < j :: IsNonzeroDigit(s[q]))
  {
    CurrentCountNeedsSeparatorAndDigit(s, 0, Start);
  }

  /** A character that leaves a running count as it is (or adds one). */
  predicate KeepsCount(rule: Rule, c: char)
  {
    c == '0' || c == '.' || (rule.Current? && IsNonzeroDigit(c))
  }

  function ZeroCount(t: string): nat
  {
    if t == [] then 0 else ZeroCount(t[..|t| - 1]) + (if t[|t| - 1] == '0' then 1 else 0)
  }

  /** `s[w..j + 1]` holds exactly ten zeros and nothing that resets the
      count, and a '.' comes before it. */
  predicate CountedWindow(rule: Rule, s: string, w: nat, j: nat)
    requires w <= j < |s|
  {
    ZeroCount(s[w..j + 1]) == CutCount &&
    (forall k | w <= k <= j :: KeepsCount(rule, s[k])) &&
    exists p | 0 <= p < w :: s[p] == '.'
  }

  lemma ZeroCountExtend(s: string, q: nat, i: nat)
    requires q <= i < |s|
    ensures ZeroCount(s[q..i + 1]) == ZeroCount(s[q..i]) + (if s[i] == '0' then 1 else 0)
  {
    assert s[q..i + 1][..i - q] == s[q..i];
  }

  lemma {:induction false} CountedSinceWindow(rule: Rule, s: string, i: nat, st: Scan, q: nat, j: nat)
    requires q <= i <= |s| && st.zeroes < CutCount
    requires CutPoint(rule, s, i, st) == Some(j)
    requires ZeroCount(s[q..i]) == st.zeroes
    requires forall k | q <= k < i :: KeepsCount(rule, s[k])
    requires st.sepFound ==> exists p | 0 <= p < i :: s[p] == '.'
    requires st.zeroes > 0 ==>
      st.sepFound && (rule.Current? ==> st.nonzeroFound) && exists p | 0 <= p < q :: s[p] == '.'
    ensures exists w | 0 <= w <= j :: CountedWindow(rule, s, w, j)
    decreases |s| - i
  {
    var next := Step(rule, st, s[i]);
    ZeroCountExtend(s, q, i);
    var q' := q;
    if next.zeroes == st.zeroes + 1 {
      if st.zeroes == 0 {
        q' := i;
        assert s[i..i] == [];
        ZeroCountExtend(s, i, i);
      }
    } else if next.zeroes == 0 {
      q' := i + 1;
      assert s[i + 1..i + 1] == [];
    }
    assert next.sepFound ==> exists p | 0 <= p < i + 1 :: s[p] == '.' by {
      if !st.sepFound && next.sepFound {
        assert s[i] == '.';
      }
    }
    if next.zeroes == CutCount {
      assert CountedWindow(rule, s, q', i);
    } else {
      CountedSinceWindow(rule, s, i + 1, next, q', j);
    }
  }

  /** At a cut the ten counted zeros lie in a stretch after a '.' that
      holds nothing which resets the counter: in the older rule only
      zeros and points, in the current rule digits and points. */
  lemma CutEndsCountedWindow(rule: Rule, s: string)
    requires CutPoint(rule, s, 0, Start).Some?
    ensures var j := CutPoint(rule, s, 0, Start).value;
      exists w | 0 <= w <= j :: CountedWindow(rule, s, w, j)
  {
    assert s[0..0] == [];
    CountedSinceWindow(rule, s, 0, Start, 0, CutPoint(rule, s, 0, Start).value);
  }

  // ---------------------------------------------------------------------
  // Where the two rules differ

  /** `n` zeros. */
  function Zeros(n: nat): (z: string)
    ensures |z| == n && forall j | 0 <= j < n :: z[j] == '0'
  {
    seq(n, _ => '0')
  }

  /** A run of `n` zeros that stays below the cut adds `n` to a counter
      that is counting. */
  lemma {:induction false} CountZeroRun(rule: Rule, s: string, i: nat, st: Scan, n: nat)
    requires i + n <= |s| && forall j | i <= j < i + n :: s[j] == '0'
    requires st.sepFound && (rule.Current? ==> st.nonzeroFound) && st.zeroes + n < CutCount
    ensures CutPoint(rule, s, i, st) == CutPoint(rule, s, i + n, st.(zeroes := st.zeroes + n))
    decreases n
  {
    if n > 0 {
      assert Step(rule, st, s[i]) == st.(zeroes := st.zeroes + 1);
      CountZeroRun(rule, s, i + 1, st.(zeroes := st.zeroes + 1), n - 1);
    }
  }

  /** Under the current rule zeros before any digit 1-9 leave the state
      as it is. */
  lemma {:induction false} SkipZeroRun(s: string, i: nat, st: Scan, n: nat)
    requires i + n <= |s| && forall j | i <= j < i + n :: s[j] == '0'
    requires !st.nonzeroFound && st.zeroes == 0
    ensures CutPoint(Current, s, i, st) == CutPoint(Current, s, i + n, st)
    decreases n
  {
    if n > 0 {
      assert Step(Current, st, s[i]) == st;
      SkipZeroRun(s, i + 1, st, n - 1);
    }
  }

  /** Zeros before the first nonzero digit are not counted by the current
      rule, so a small number such as `0.0000000000001` keeps its digits;
      the older rule cuts it after the tenth zero. */
  lemma LeadingZerosAfterPoint(k: nat)
    requires k >= CutCount
    ensures Truncated(Legacy, "0." + Zeros(k) + "1") == "0." + Zeros(CutCount)
    ensures Truncated(Current, "0." + Zeros(k) + "1") == "0." + Zeros(k) + "1"
  {
    var s := "0." + Zeros(k) + "1";
    assert |s| == k + 3 && s[0] == '0' && s[1] == '.' && s[k + 2] == '1';
    assert forall j | 2 <= j < k + 2 :: s[j] == '0';
    var counting := Scan(true, false, 0);
    assert Step(Legacy, Start, s[0]) == Start && Step(Legacy, Start, s[1]) == counting;
    CountZeroRun(Legacy, s, 2, counting, CutCount - 1);
    assert CutPoint(Legacy, s, 0, Start) == Some(CutCount + 1);
    assert s[..CutCount + 2] == "0." + Zeros(CutCount);
    assert Step(Current, Start, s[0]) == Start && Step(Current, Start, s[1]) == counting;
    SkipZeroRun(s, 2, counting, k);
    assert CutPoint(Current, s, k + 2, counting) == None;
    assert CutPoint(Current, s, 0, Start) == None;
  }

  /** A digit 1-9 does not reset the current rule's counter: ten zeros
      split by a digit 1-9 after a `.`, such as in `1.00000100000001`, are
      enough for a cut, where the older rule keeps the whole string. */
  lemma ScatteredZeros(a: nat, b: nat)
    requires a < CutCount && b < CutCount && a + b >= CutCount
    ensures Truncated(Current, "1." + Zeros(a) + "1" + Zeros(b) + "1")
         == "1." + Zeros(a) + "1" + Zeros(CutCount - a)
    ensures Truncated(Legacy, "1." + Zeros(a) + "1" + Zeros(b) + "1")
         == "1." + Zeros(a) + "1" + Zeros(b) + "1"
  {
    var s := "1." + Zeros(a) + "1" + Zeros(b) + "1";
    assert |s| == a + b + 4 && s[0] == '1' && s[1] == '.' && s[a + 2] == '1' && s[a + b + 3] == '1';
    assert forall j | 2 <= j < a + 2 :: s[j] == '0';
    assert forall j | a + 3 <= j < a + b + 3 :: s[j] == '0';
    CurrentCutsScattered(s, a, b);
    assert s[..CutCount + 3] == "1." + Zeros(a) + "1" + Zeros(CutCount - a);
    LegacyKeepsScattered(s, a, b);
  }

  lemma CurrentCutsScattered(s: string, a: nat, b: nat)
    requires a < CutCount && a + b >= CutCount && |s| == a + b + 4
    requires s[0] == '1' && s[1] == '.' && s[a + 2] == '1'
    requires forall j | 2 <= j < a + 2 :: s[j] == '0'
    requires forall j | a + 3 <= j < a + b + 3 :: s[j] == '0'
    ensures CutPoint(Current, s, 0, Start) == Some(CutCount + 2)
  {
    var counting := Scan(true, true, 0);
    assert Step(Current, Start, s[0]) == Scan(false, true, 0);
    assert Step(Current, Scan(false, true, 0), s[1]) == counting;
    CountZeroRun(Current, s, 2, counting, a);
    assert Step(Current, counting.(zeroes := a), s[a + 2]) == counting.(zeroes := a);
    CountZeroRun(Current, s, a + 3, counting.(zeroes := a), CutCount - 1 - a);
    assert s[CutCount + 2] == '0';
  }

  lemma LegacyKeepsScattered(s: string, a: nat, b: nat)
    requires a < CutCount && b < CutCount && |s| == a + b + 4
    requires s[0] == '1' && s[1] == '.' && s[a + 2] == '1' && s[a + b + 3] == '1'
    requires forall j | 2 <= j < a + 2 :: s[j] == '0'
    requires forall j | a + 3 <= j < a + b + 3 :: s[j] == '0'
    ensures CutPoint(Legacy, s, 0, Start) == None
  {
    var counting := Scan(true, false, 0);
    assert Step(Legacy, Start, s[0]) == Start && Step(Legacy, Start, s[1]) == counting;
    CountZeroRun(Legacy, s, 2, counting, a);
    assert Step(Legacy, counting.(zeroes := a), s[a + 2]) == counting;
    CountZeroRun(Legacy, s, a + 3, counting, b);
    assert Step(Legacy, counting.(zeroes := b), s[a + b + 3]) == counting;
    assert CutPoint(Legacy, s, a + b + 4, counting) == None;
  }

  // ---------------------------------------------------------------------
  // The loop of src/common.rs

  /** `truncate_zeroes` of src/common.rs. */
  method TruncateZeroes(numStr: string) returns (r: string)
    ensures r == Truncated(Current, numStr)
  {
    var sepFound, nonzeroFound, zeroes: nat := false, false, 0;
    for i := 0 to |numStr|
      invariant zeroes < CutCount
      invariant CutPoint(Current, numStr, i, Scan(sepFound, nonzeroFound, zeroes))
        == CutPoint(Current, numStr, 0, Start)
    {
      var c := numStr[i];
      if c == '.' {
        sepFound := true;
      } else if IsNonzeroDigit(c) {
        nonzeroFound := true;
      } else if sepFound && nonzeroFound && c == '0' {
        zeroes := zeroes + 1;
        if zeroes == CutCount {
          return numStr[..i + 1];
        }
      } else {
        zeroes := 0;
      }
    }
    return numStr;
  }
}
