/**
 * Lists of "active" class flags, one per element of a node list, as the carousel
 * and the navigation menu keep them.
 */
module Flags {

  /** Number of elements whose flag is set. */
  function CountActive(s: seq<bool>): (r: nat)
    ensures r <= |s|
  {
    if s == [] then 0 else (if s[0] then 1 else 0) + CountActive(s[1..])
  }

  /** The flags set exactly at index `i`: element `i` is active and no other one is. */
  ghost predicate ActiveExactlyAt(s: seq<bool>, i: nat) {
    i < |s| && forall k :: 0 <= k < |s| ==> (s[k] <==> k == i)
  }

  /** No element is active. */
  ghost predicate NoneActive(s: seq<bool>) {
    forall k :: 0 <= k < |s| ==> !s[k]
  }

  /** At most one element is active. */
  ghost predicate AtMostOneActive(s: seq<bool>) {
    forall i, j :: 0 <= i < |s| && 0 <= j < |s| && s[i] && s[j] ==> i == j
  }

  lemma {:induction false} NoneActiveCountsZero(s: seq<bool>)
    ensures NoneActive(s) <==> CountActive(s) == 0
  {
    if s != [] {
      NoneActiveCountsZero(s[1..]);
      if NoneActive(s[1..]) && !s[0] {
        assert NoneActive(s) by {
          forall k | 0 <= k < |s| ensures !s[k] {
            if k > 0 { assert s[k] == s[1..][k - 1]; }
          }
        }
      }
    }
  }

  /** Two flag lists of one length, each active exactly at `i`, are the same list. */
  lemma ActiveExactlyAtUnique(s: seq<bool>, t: seq<bool>, i: nat)
    requires |s| == |t| && ActiveExactlyAt(s, i) && ActiveExactlyAt(t, i)
    ensures s == t
  {
  }

  /** "Exactly one flag, at i" means the count of active flags is one. */
  lemma {:induction false} ActiveExactlyAtCountsOne(s: seq<bool>, i: nat)
    requires ActiveExactlyAt(s, i)
    ensures CountActive(s) == 1
  {
    if i == 0 {
      NoneActiveCountsZero(s[1..]);
    } else {
      assert ActiveExactlyAt(s[1..], i - 1);
      ActiveExactlyAtCountsOne(s[1..], i - 1);
    }
  }

  /** A count of one means the flags are active exactly at some index. */
  lemma {:induction false} CountOneActiveExactlyAt(s: seq<bool>)
    requires CountActive(s) == 1
    ensures exists i: nat :: ActiveExactlyAt(s, i)
  {
    if s[0] {
      NoneActiveCountsZero(s[1..]);
      forall k | 0 < k < |s| ensures !s[k] {
        assert s[k] == s[1..][k - 1];
      }
      assert ActiveExactlyAt(s, 0);
    } else {
      CountOneActiveExactlyAt(s[1..]);
      var i: nat :| ActiveExactlyAt(s[1..], i);
      forall k | 0 < k < |s| ensures s[k] == s[1..][k - 1] {
      }
      assert ActiveExactlyAt(s, i + 1);
    }
  }

  /** At most one flag is active exactly when the count of active flags is at most one. */
  lemma {:induction false} AtMostOneActiveIffCount(s: seq<bool>)
    ensures AtMostOneActive(s) <==> CountActive(s) <= 1
  {
    if s != [] {
      AtMostOneActiveIffCount(s[1..]);
      NoneActiveCountsZero(s[1..]);
      if s[0] {
        if AtMostOneActive(s) {
          forall k | 0 <= k < |s[1..]| ensures !s[1..][k] {
            assert s[k + 1] == s[1..][k];
          }
        }
        if CountActive(s) <= 1 {
          forall k | 0 < k < |s| ensures !s[k] {
            assert s[k] == s[1..][k - 1];
          }
        }
      } else {
        if AtMostOneActive(s) {
          forall i, j | 0 <= i < |s[1..]| && 0 <= j < |s[1..]| && s[1..][i] && s[1..][j] ensures i == j {
            assert s[i + 1] == s[1..][i] && s[j + 1] == s[1..][j];
          }
        }
        if AtMostOneActive(s[1..]) {
          forall i, j | 0 <= i < |s| && 0 <= j < |s| && s[i] && s[j] ensures i == j {
            assert s[1..][i - 1] == s[i] && s[1..][j - 1] == s[j];
          }
        }
      }
    }
  }
}
