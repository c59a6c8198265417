/** What every validator reports, and the averaging three of them use for their overall score. */
module Verdict {
  import opened Wrappers

  /** The category-level verdict of one validator. */
  datatype Status = NotApplicable | Passed | Malformed | Error

  /** The dictionary a validator returns: `status`, `details` and `confidence`. */
  datatype Outcome<D> = Outcome(status: Status, details: seq<D>, confidence: real)

  /**
   * The `issues` list a validator's loop builds: for each candidate in turn,
   * its entry when it has one.
   */
  function Kept<E>(opts: seq<Option<E>>): seq<E>
  {
    if opts == [] then [] else Kept(opts[..|opts| - 1]) + Present(opts[|opts| - 1])
  }

  /** One more candidate adds its entry, if any, to the end. */
  lemma KeptSnoc<E>(opts: seq<Option<E>>, n: nat)
    requires n < |opts|
    ensures Kept(opts[..n + 1]) == Kept(opts[..n]) + Present(opts[n])
  {
    assert opts[..n + 1][..n] == opts[..n];
  }

  /** The 0-based positions of the candidates that have an entry, in order. */
  function KeptAt<E>(opts: seq<Option<E>>): seq<nat>
  {
    if opts == [] then []
    else KeptAt(opts[..|opts| - 1]) + (if opts[|opts| - 1].Some? then [|opts| - 1] else [])
  }

  /** The last candidate adds its entry, if any, and its position, if kept. */
  lemma KeptLast<E>(opts: seq<Option<E>>)
    requires opts != []
    ensures var init := opts[..|opts| - 1];
      && Kept(opts) == Kept(init) + Present(opts[|opts| - 1])
      && KeptAt(opts) == KeptAt(init) + (if opts[|opts| - 1].Some? then [|opts| - 1] else [])
  {
  }

  /**
   * The kept entries are exactly the present ones, in candidate order: the
   * j-th comes from the candidate at the j-th kept position, positions
   * increase, and every candidate with an entry has its position kept.
   */
  lemma {:induction false} KeptExactly<E>(opts: seq<Option<E>>)
    ensures |Kept(opts)| == |KeptAt(opts)| <= |opts|
    ensures forall j | 0 <= j < |KeptAt(opts)| :: KeptAt(opts)[j] < |opts| && opts[KeptAt(opts)[j]] == Some(Kept(opts)[j])
    ensures forall j, k | 0 <= j < k < |KeptAt(opts)| :: KeptAt(opts)[j] < KeptAt(opts)[k]
    ensures forall i | 0 <= i < |opts| && opts[i].Some? :: i in KeptAt(opts)
  {
    if opts != [] {
      var n := |opts| - 1;
      var init := opts[..n];
      KeptExactly(init);
      KeptLast(opts);
      var es, at := Kept(opts), KeptAt(opts);
      var es0, at0 := Kept(init), KeptAt(init);
      assert |es| == |at|;
      forall j | 0 <= j < |at| ensures at[j] < |opts| && opts[at[j]] == Some(es[j]) {
        if j < |at0| {
          assert at[j] == at0[j] && es[j] == es0[j];
          assert init[at0[j]] == opts[at0[j]];
        } else {
          assert at[j] == n && es[j] == opts[n].value;
        }
      }
      forall j, k | 0 <= j < k < |at| ensures at[j] < at[k] {
        if k < |at0| {
          assert at[j] == at0[j] && at[k] == at0[k];
        } else {
          assert at[j] == at0[j] < n == at[k];
        }
      }
      forall i | 0 <= i < |opts| && opts[i].Some? ensures i in at {
        if i < n {
          assert init[i] == opts[i];
          var j :| 0 <= j < |at0| && at0[j] == i;
          assert at[j] == i;
        } else {
          assert at[|at| - 1] == n;
        }
      }
    }
  }

  /** A validator records nothing exactly when no candidate has an entry. */
  lemma KeptEmpty<E>(opts: seq<Option<E>>)
    ensures Kept(opts) == [] <==> forall i | 0 <= i < |opts| :: opts[i].None?
  {
    KeptExactly(opts);
    if Kept(opts) != [] {
      assert opts[KeptAt(opts)[0]].Some?;
    }
  }

  /** `sum(xs)`, added up from the left as Python does. */
  function Sum(xs: seq<real>): real
  {
    if xs == [] then 0.0 else Sum(xs[..|xs| - 1]) + xs[|xs| - 1]
  }

  /** `sum(xs) / len(xs)` */
  function Mean(xs: seq<real>): real
    requires xs != []
  {
    Sum(xs) / |xs| as real
  }

  lemma {:induction false} SumBounds(xs: seq<real>, lo: real, hi: real)
    requires forall i | 0 <= i < |xs| :: lo <= xs[i] <= hi
    ensures |xs| as real * lo <= Sum(xs) <= |xs| as real * hi
  {
    if xs != [] {
      SumBounds(xs[..|xs| - 1], lo, hi);
    }
  }

  /** A quotient of `s` by a positive `n` lies in [lo, hi] when `s` lies in [n * lo, n * hi]. */
  lemma QuotientBounds(s: real, n: real, lo: real, hi: real)
    requires 0.0 < n && n * lo <= s <= n * hi
    ensures lo <= s / n <= hi
  {
    var q := s / n;
    assert q * n == s;
    assert (q - lo) * n >= 0.0;
    assert (hi - q) * n >= 0.0;
  }

  /** A mean of scores that all lie in [lo, hi] lies in [lo, hi]. */
  lemma MeanBounds(xs: seq<real>, lo: real, hi: real)
    requires xs != []
    requires forall i | 0 <= i < |xs| :: lo <= xs[i] <= hi
    ensures lo <= Mean(xs) <= hi
  {
    SumBounds(xs, lo, hi);
    QuotientBounds(Sum(xs), |xs| as real, lo, hi);
  }

  /** The overall score of the averaging validators: the mean of the recorded scores, or 100 without any. */
  function MeanOr100(xs: seq<real>): real
  {
    if xs == [] then 100.0 else Mean(xs)
  }

  /**
   * `max(b * (1 - k / total), 0)`, the scaling being skipped when `total` is 0:
   * a baseline discounted by the share `k / total` of failing elements.
   */
  function Discounted(b: real, k: nat, total: nat): real
  {
    var scaled := if total > 0 then b * (1.0 - k as real / total as real) else b;
    if scaled >= 0.0 then scaled else 0.0
  }

  lemma ShareBounds(k: nat, total: nat)
    requires 0 < total && k <= total
    ensures 0.0 <= k as real / total as real <= 1.0
  {
    var q := k as real / total as real;
    assert q * total as real == k as real;
  }

  /** No failing element is the only share of 0, and the share is at most 1 when at most every element fails. */
  lemma ShareZero(k: nat, total: nat)
    requires 0 < total
    ensures k as real / total as real == 0.0 <==> k == 0
    ensures k <= total ==> 0.0 <= k as real / total as real <= 1.0
  {
    var q := k as real / total as real;
    assert q * total as real == k as real;
    if k <= total {
      ShareBounds(k, total);
    }
  }

  /** Discounting a baseline of at most `hi` by at most every element gives a value in [0, hi]. */
  lemma DiscountedBounds(b: real, k: nat, total: nat, hi: real)
    requires b <= hi && 0.0 <= hi && k <= total
    ensures 0.0 <= Discounted(b, k, total) <= hi
  {
    if total > 0 {
      ShareBounds(k, total);
      var f := 1.0 - k as real / total as real;
      if b >= 0.0 {
        assert b * f <= b * 1.0;
      } else {
        assert b * f <= 0.0;
      }
    }
  }

  /** A non-negative baseline discounted by any number of elements stays in [0, b]. */
  lemma DiscountedOfNonNegative(b: real, k: nat, total: nat)
    requires 0.0 <= b
    ensures 0.0 <= Discounted(b, k, total) <= b
  {
    if total > 0 {
      var q := k as real / total as real;
      assert q * total as real == k as real;
      if k <= total {
        ShareBounds(k, total);
        assert b * (1.0 - q) <= b * 1.0;
      } else {
        assert q * total as real > 1.0 * total as real;
        assert 1.0 - q < 0.0;
        assert b * (1.0 - q) <= 0.0;
      }
    }
  }

  /**
   * `max(base - (k / total) * 50, 0)`: a baseline less at most 50 points, in
   * proportion to the share of failing elements. With no more failing
   * elements than elements and a baseline of at least 50 it never reaches
   * the floor, and only a clean run keeps the whole baseline.
   */
  function ShareScore(base: real, k: nat, total: nat): (r: real)
    requires total > 0
    ensures 0.0 <= r
    ensures k <= total && 50.0 <= base ==> base - 50.0 <= r <= base
    ensures k <= total && 50.0 <= base ==> (r == base <==> k == 0)
  {
    var share := k as real / total as real;
    ShareZero(k, total);
    var s := base - share * 50.0;
    if s >= 0.0 then s else 0.0
  }
}
