/**
 Registers that are stepped once per input symbol, over any carrier.

 A checksum, a line splitter and a shift register are all of this shape. The
 lemmas here need no more of the step function than what they state, so the
 CRC arithmetic never meets an induction.
 */
module Register {

  function Iterate<R>(f: R -> R, r: R, n: nat): R
    decreases n
  {
    if n == 0 then r else Iterate(f, f(r), n - 1)
  }

  lemma {:induction false} IterateSplit<R>(f: R -> R, r: R, m: nat, n: nat)
    ensures Iterate(f, r, m + n) == Iterate(f, Iterate(f, r, m), n)
    decreases m
  {
    if m > 0 { IterateSplit(f, f(r), m - 1, n); }
  }

  /** The register after a sequence of symbols. */
  function Run<R, S>(f: (R, S) -> R, r: R, input: seq<S>): R
    decreases |input|
  {
    if input == [] then r else Run(f, f(r, input[0]), input[1..])
  }

  lemma {:induction false} RunConcat<R, S>(f: (R, S) -> R, r: R, x: seq<S>, y: seq<S>)
    ensures Run(f, r, x + y) == Run(f, Run(f, r, x), y)
    decreases |x|
  {
    if x == [] {
      assert x + y == y;
    } else {
      assert (x + y)[1..] == x[1..] + y;
      RunConcat(f, f(r, x[0]), x[1..], y);
    }
  }

  /** A simulation: if `abs` commutes with every step from a good state, it commutes with every run. */
  lemma {:induction false} RunRefines<R(!new), A(!new), S(!new)>(f: (R, S) -> R, g: (A, S) -> A, inv: R -> bool,
                                                                abs: R -> A, r: R, input: seq<S>)
    requires inv(r)
    requires forall q, s :: inv(q) ==> inv(f(q, s)) && abs(f(q, s)) == g(abs(q), s)
    ensures inv(Run(f, r, input)) && abs(Run(f, r, input)) == Run(g, abs(r), input)
    decreases |input|
  {
    if input != [] {
      RunRefines(f, g, inv, abs, f(r, input[0]), input[1..]);
    }
  }

  function Flatten<S>(chunks: seq<seq<S>>): seq<S> {
    if chunks == [] then [] else chunks[0] + Flatten(chunks[1..])
  }

  /** Feeding chunk after chunk is feeding the concatenation. */
  lemma {:induction false} RunChunks<R(!new), S(!new)>(f: (R, S) -> R, g: (R, seq<S>) -> R, r: R, chunks: seq<seq<S>>)
    requires forall q, chunk :: g(q, chunk) == Run(f, q, chunk)
    ensures Run(g, r, chunks) == Run(f, r, Flatten(chunks))
    decreases |chunks|
  {
    if chunks != [] {
      RunConcat(f, r, chunks[0], Flatten(chunks[1..]));
      RunChunks(f, g, g(r, chunks[0]), chunks[1..]);
    }
  }

  /** Two step functions that agree everywhere run alike. */
  lemma {:induction false} RunAgree<R(!new), S(!new)>(f: (R, S) -> R, g: (R, S) -> R, r: R, input: seq<S>)
    requires forall q, s :: f(q, s) == g(q, s)
    ensures Run(f, r, input) == Run(g, r, input)
    decreases |input|
  {
    if input != [] {
      RunAgree(f, g, f(r, input[0]), input[1..]);
    }
  }

  lemma {:induction false} IterateAgree<R(!new)>(f: R -> R, g: R -> R, r: R, n: nat)
    requires forall q :: f(q) == g(q)
    ensures Iterate(f, r, n) == Iterate(g, r, n)
    decreases n
  {
    if n > 0 {
      IterateAgree(f, g, f(r), n - 1);
    }
  }

  function Expand<S, T>(parts: S -> seq<T>, input: seq<S>): seq<T> {
    if input == [] then [] else parts(input[0]) + Expand(parts, input[1..])
  }

  /** A coarse step that is a run of fine steps: the two runs agree. */
  lemma {:induction false} RunExpand<R(!new), S(!new), T>(f: (R, S) -> R, g: (R, T) -> R, parts: S -> seq<T>,
                                                          r: R, input: seq<S>)
    requires forall q, s :: f(q, s) == Run(g, q, parts(s))
    ensures Run(f, r, input) == Run(g, r, Expand(parts, input))
    decreases |input|
  {
    if input != [] {
      RunConcat(g, r, parts(input[0]), Expand(parts, input[1..]));
      RunExpand(f, g, parts, f(r, input[0]), input[1..]);
    }
  }

  function Zip<S>(add: (S, S) -> S, x: seq<S>, y: seq<S>): (z: seq<S>)
    requires |x| == |y|
    ensures |z| == |x|
  {
    seq(|x|, i requires 0 <= i < |x| => add(x[i], y[i]))
  }

  lemma {:induction false} IterateLinear<R(!new)>(f: R -> R, add: (R, R) -> R, a: R, b: R, n: nat)
    requires forall p, q :: f(add(p, q)) == add(f(p), f(q))
    ensures Iterate(f, add(a, b), n) == add(Iterate(f, a, n), Iterate(f, b, n))
    decreases n
  {
    if n > 0 {
      IterateLinear(f, add, f(a), f(b), n - 1);
    }
  }

  lemma {:induction false} RunLinear<R(!new), S(!new)>(f: (R, S) -> R, add: (R, R) -> R, addS: (S, S) -> S,
                                                       a: R, b: R, x: seq<S>, y: seq<S>)
    requires |x| == |y|
    requires forall p, q, s, t :: f(add(p, q), addS(s, t)) == add(f(p, s), f(q, t))
    ensures Run(f, add(a, b), Zip(addS, x, y)) == add(Run(f, a, x), Run(f, b, y))
    decreases |x|
  {
    if x != [] {
      assert Zip(addS, x, y)[1..] == Zip(addS, x[1..], y[1..]);
      RunLinear(f, add, addS, f(a, x[0]), f(b, y[0]), x[1..], y[1..]);
    }
  }

  /** If no step merges two states, no run does. */
  lemma {:induction false} RunInjective<R(!new), S(!new)>(f: (R, S) -> R, a: R, b: R, input: seq<S>)
    requires forall p, q, s :: f(p, s) == f(q, s) ==> p == q
    requires a != b
    ensures Run(f, a, input) != Run(f, b, input)
    decreases |input|
  {
    if input != [] {
      RunInjective(f, f(a, input[0]), f(b, input[0]), input[1..]);
    }
  }

  /** The first `n` digits of `x`: its low digit, then those of what remains. */
  function Digits<R, D>(low: R -> D, rest: R -> R, x: R, n: nat): (d: seq<D>)
    ensures |d| == n
    decreases n
  {
    if n == 0 then [] else [low(x)] + Digits(low, rest, rest(x), n - 1)
  }

  lemma {:induction false} DigitsInjective<R(!new), D>(low: R -> D, rest: R -> R, zero: R, x: R, y: R, n: nat)
    requires forall p, q :: low(p) == low(q) && rest(p) == rest(q) ==> p == q
    requires Iterate(rest, x, n) == zero == Iterate(rest, y, n)
    requires Digits(low, rest, x, n) == Digits(low, rest, y, n)
    ensures x == y
    decreases n
  {
    if n > 0 {
      var dx, dy := Digits(low, rest, x, n), Digits(low, rest, y, n);
      assert dx[0] == dy[0] && dx[1..] == dy[1..];
      DigitsInjective(low, rest, zero, rest(x), rest(y), n - 1);
    }
  }

  /** Adding a whole number and then stepping is stepping in its digits one by one. */
  lemma {:induction false} IterateIsRun<R(!new), D>(step: R -> R, digitStep: (R, D) -> R, add: (R, R) -> R,
                                                    low: R -> D, rest: R -> R, zero: R, r: R, x: R, n: nat)
    requires forall p, q :: step(add(p, q)) == add(digitStep(p, low(q)), rest(q))
    requires forall p :: add(p, zero) == p
    requires Iterate(rest, x, n) == zero
    ensures Iterate(step, add(r, x), n) == Run(digitStep, r, Digits(low, rest, x, n))
    decreases n
  {
    if n > 0 {
      IterateIsRun(step, digitStep, add, low, rest, zero, digitStep(r, low(x)), rest(x), n - 1);
      assert Digits(low, rest, x, n)[1..] == Digits(low, rest, rest(x), n - 1);
    }
  }

  /** The start state reached by undoing `input` from `target` with `push`. */
  function Unwind<R, S>(push: (S, R) -> R, target: R, input: seq<S>): R {
    if input == [] then target else push(input[0], Unwind(push, target, input[1..]))
  }

  /**
   If `push` undoes one step towards any state that is small at its depth, and
   keeps states small for `depth` steps, then an input of at most `depth`
   symbols reaches `target` from exactly one start state.
   */
  lemma {:induction false} RunReachesIff<R(!new), S(!new)>(f: (R, S) -> R, push: (S, R) -> R, small: (nat, R) -> bool,
                                                           depth: nat, target: R, r: R, input: seq<S>)
    requires |input| <= depth
    requires small(0, target)
    requires forall n: nat, s, t :: n < depth - 1 && small(n, t) ==> small(n + 1, push(s, t))
    requires forall n: nat, q, s, t :: n < depth && small(n, t) ==> (f(q, s) == t <==> q == push(s, t))
    ensures Run(f, r, input) == target <==> r == Unwind(push, target, input)
    ensures |input| < depth ==> small(|input|, Unwind(push, target, input))
    decreases |input|
  {
    if input != [] {
      RunReachesIff(f, push, small, depth, target, f(r, input[0]), input[1..]);
      assert small(|input| - 1, Unwind(push, target, input[1..]));
    }
  }
}
