/** Lengths of equal steps laid end to end, counted by repeated addition; `SpanIsProduct` gives the product. */
module Spans {

  /** `n` steps of length `step`. */
  function Span(n: nat, step: nat): nat {
    if n == 0 then 0 else Span(n - 1, step) + step
  }

  lemma {:induction false} SpanIsProduct(n: nat, step: nat)
    ensures Span(n, step) == n * step
  {
    if n > 0 {
      SpanIsProduct(n - 1, step);
      assert n * step == (n - 1) * step + step;
    }
  }

  /** Step `i` of `n` ends where step `i + 1` begins, and no later than the whole. */
  lemma {:induction false} SpanFits(i: nat, n: nat, step: nat)
    requires i < n
    ensures Span(i, step) + step == Span(i + 1, step) <= Span(n, step)
  {
    if i < n - 1 {
      SpanFits(i, n - 1, step);
    }
  }

  lemma {:induction false} SpanAdds(m: nat, n: nat, step: nat)
    ensures Span(m + n, step) == Span(m, step) + Span(n, step)
  {
    if n > 0 {
      SpanAdds(m, n - 1, step);
    }
  }

  lemma {:induction false} SpanIsMonotone(n: nat, step: nat, longer: nat)
    requires step <= longer
    ensures Span(n, step) <= Span(n, longer)
  {
    if n > 0 {
      SpanIsMonotone(n - 1, step, longer);
    }
  }
}
