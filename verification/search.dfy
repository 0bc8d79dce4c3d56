/** The main loop: a decreasing-gap swap search over the order of the
    person lines. Running `dot` on a candidate is replaced by `eval`, a
    deterministic function from a candidate document to its crossing count.
    Timing statistics and the progress printout are left out, except that
    each trial is recorded in a log, with the values the printout shows.

    `Run` is the search written as a recursive function, one trial per
    call, and `ValidTrace` says which logs a run can print; the two agree
    (`RunCharacterization`). `SweepSpan` and `Optimize` are the two loops
    of the script; `Optimize` returns the log of `Run` together with what
    the lemmas about a run guarantee. */
module Search {
  import opened Wrappers
  import opened Segmenter
  import opened Reassembler

  /** The crossing count of the document `d` with `people` in place of its
      person lines. */
  function Score(d: Diagram, eval: seq<string> -> nat, people: seq<string>): nat {
    eval(Assemble(d, people))
  }

  predicate IsPow2(p: nat)
    decreases p
  {
    p == 1 || (p >= 2 && p % 2 == 0 && IsPow2(p / 2))
  }

  /** The largest power of two not above `m`. */
  function Pow2Floor(m: nat): (p: nat)
    requires m >= 1
    ensures 1 <= p <= m < 2 * p
    decreases m
  {
    if m == 1 then 1 else 2 * Pow2Floor(m / 2)
  }

  /** `Pow2Floor` is a power of two. */
  lemma {:induction false} Pow2FloorIsPow2(m: nat)
    requires m >= 1
    ensures IsPow2(Pow2Floor(m))
    decreases m
  {
    if m > 1 {
      Pow2FloorIsPow2(m / 2);
      var q := Pow2Floor(m / 2);
      assert (2 * q) / 2 == q && (2 * q) % 2 == 0;
    }
  }

  /** A power of two with `p <= m < 2 * p` is unique, so it is the one
      `Pow2Floor` computes. */
  lemma {:induction false} Pow2FloorUnique(m: nat, p: nat)
    requires m >= 1 && IsPow2(p) && p <= m < 2 * p
    ensures p == Pow2Floor(m)
    decreases m
  {
    if m >= 2 {
      assert p >= 2;
      Pow2FloorUnique(m / 2, p / 2);
    }
  }

  /** `2 ** int(log(nsize - 1) / log(2))`: the first span. Fewer than two
      people make `log` fail. */
  function InitialSpan(n: nat): (r: Option<nat>)
    ensures r.Some? <==> n >= 2
    ensures r.Some? ==> IsPow2(r.value) && r.value <= n - 1 < 2 * r.value
  {
    if n < 2 then None
    else
      Pow2FloorIsPow2(n - 1);
      Some(Pow2Floor(n - 1))
  }

  /** The number of spans still to come after `span`, each half the last. */
  function Halvings(span: nat): nat
    decreases span
  {
    if span <= 1 then 0 else 1 + Halvings(span / 2)
  }

  /** The number of trials spans `span`, `span / 2`, ..., 1 make when no
      trial reaches zero crossings: `n - s` for each span `s`. */
  function TotalTrials(n: nat, span: nat): nat
    requires span < n
    decreases span
  {
    if span == 0 then 0 else (n - span) + TotalTrials(n, span / 2)
  }

  /** The candidate ordering: the elements at `a` and `b` exchanged, as
      the three assignments through `tmp` do. */
  function Swap(s: seq<string>, a: nat, b: nat): (r: seq<string>)
    requires a < |s| && b < |s|
    ensures |r| == |s|
  {
    s[a := s[b]][b := s[a]]
  }

  /** A swap reorders the list: the two positions trade their elements,
      every other position keeps its own, and the multiset of lines is the
      same. */
  lemma SwapExchanges(s: seq<string>, a: nat, b: nat)
    requires a < |s| && b < |s|
    ensures Swap(s, a, b)[a] == s[b] && Swap(s, a, b)[b] == s[a]
    ensures forall k :: 0 <= k < |s| && k != a && k != b ==> Swap(s, a, b)[k] == s[k]
    ensures multiset(Swap(s, a, b)) == multiset(s)
  {
  }

  /** One trial, with what the progress line prints (span, index, best
      count so far, candidate count) and the ordering it started from. */
  datatype Trial = Trial(span: nat, index: nat, before: seq<string>, bestBefore: nat, count: nat)

  predicate InRange(t: Trial) {
    t.span >= 1 && t.index + t.span < |t.before|
  }

  function Candidate(t: Trial): seq<string>
    requires InRange(t)
  {
    Swap(t.before, t.index, t.index + t.span)
  }

  /** Only a strict improvement is taken. */
  predicate Accepted(t: Trial) {
    t.count < t.bestBefore
  }

  function PeopleAfter(t: Trial): (r: seq<string>)
    requires InRange(t)
    ensures |r| == |t.before|
  {
    if Accepted(t) then Candidate(t) else t.before
  }

  function BestAfter(t: Trial): nat {
    if Accepted(t) then t.count else t.bestBefore
  }

  /** Where the loops go after a trial at `(span, i)` that leaves the best
      count at `best`: the next index, or, once the indices of this span are
      used up or the count is zero, index 0 of the halved span; `None` when
      the halved span is zero. */
  function NextSlot(n: nat, span: nat, i: nat, best: nat): (r: Option<(nat, nat)>)
    ensures 1 <= span && i + span < n ==> SlotFits(n, r)
    ensures r.Some? ==> r.value.0 < span || (r.value.0 == span && r.value.1 == i + 1)
    ensures r.None? ==> span <= 1
    ensures r.Some? && r.value.0 != span ==> r.value == (span / 2, 0)
    ensures best == 0 ==> r == (if span / 2 >= 1 then Some((span / 2, 0)) else None)
  {
    if best != 0 && i + 1 < n - span then Some((span, i + 1))
    else if span / 2 >= 1 then Some((span / 2, 0))
    else None
  }

  /** A trial of the document `d`: in range, and scored by `eval` on the
      document with its candidate ordering. */
  predicate Scored(d: Diagram, eval: seq<string> -> nat, t: Trial) {
    && |t.before| == |d.body.people|
    && InRange(t)
    && t.count == Score(d, eval, Candidate(t))
  }

  /** `u` is the trial the loops run after `t`: it starts from the ordering
      and count `t` leaves, at the slot `t` leads to. */
  predicate Follows(n: nat, t: Trial, u: Trial) {
    && InRange(t)
    && u.before == PeopleAfter(t)
    && u.bestBefore == BestAfter(t)
    && NextSlot(n, t.span, t.index, BestAfter(t)) == Some((u.span, u.index))
  }

  /** Trials one after another: each scored, each following the one
      before it. */
  predicate Chain(d: Diagram, eval: seq<string> -> nat, log: seq<Trial>) {
    && (forall k :: 0 <= k < |log| ==> Scored(d, eval, log[k]))
    && (forall k :: 1 <= k < |log| ==> Follows(|d.body.people|, log[k - 1], log[k]))
  }

  /** The first trial: index 0 of the first span, from the parsed ordering
      and its count. */
  predicate StartsRun(d: Diagram, eval: seq<string> -> nat, t: Trial) {
    && |d.body.people| >= 2
    && t.span == Pow2Floor(|d.body.people| - 1) && t.index == 0
    && t.before == d.body.people
    && t.bestBefore == Score(d, eval, d.body.people)
  }

  /** After `t` the loops stop. */
  predicate Stops(n: nat, t: Trial) {
    NextSlot(n, t.span, t.index, BestAfter(t)).None?
  }

  /** A whole run of the script on `d`, as its progress lines would show
      it. */
  predicate ValidTrace(d: Diagram, eval: seq<string> -> nat, log: seq<Trial>) {
    && |log| > 0
    && StartsRun(d, eval, log[0])
    && Chain(d, eval, log)
    && Stops(|d.body.people|, log[|log| - 1])
  }

  /** The trial the loops run at `(span, i)` from `people` with best count
      `best`. */
  function TrialAt(d: Diagram, eval: seq<string> -> nat, span: nat, i: nat,
                   people: seq<string>, best: nat): (t: Trial)
    requires 1 <= span && i + span < |people|
    ensures InRange(t)
  {
    Trial(span, i, people, best, Score(d, eval, Swap(people, i, i + span)))
  }

  /** The trials the loops run from slot `(span, i)` on, until they stop. */
  function RunFrom(d: Diagram, eval: seq<string> -> nat, span: nat, i: nat,
                   people: seq<string>, best: nat): (log: seq<Trial>)
    requires 1 <= span && i + span < |people|
    ensures |log| > 0
    decreases span, |people| - i
  {
    var t := TrialAt(d, eval, span, i, people, best);
    match NextSlot(|people|, span, i, BestAfter(t))
    case None => [t]
    case Some((s, j)) => [t] + RunFrom(d, eval, s, j, PeopleAfter(t), BestAfter(t))
  }

  /** The whole run on the parsed ordering. */
  function Run(d: Diagram, eval: seq<string> -> nat): (log: seq<Trial>)
    requires |d.body.people| >= 2
    ensures |log| > 0
  {
    var people := d.body.people;
    RunFrom(d, eval, Pow2Floor(|people| - 1), 0, people, Score(d, eval, people))
  }

  /** The last trial of a log. */
  function Last(log: seq<Trial>): Trial
    requires |log| > 0
  {
    log[|log| - 1]
  }

  /** A slot the loops can run: a positive span and an index inside it. */
  predicate SlotFits(n: nat, slot: Option<(nat, nat)>) {
    slot.Some? ==> 1 <= slot.value.0 && slot.value.1 + slot.value.0 < n
  }

  /** After `t` the ordering is `people`, the best count `best`, and the
      loops go on at `slot`. */
  predicate Leads(n: nat, t: Trial, people: seq<string>, best: nat, slot: Option<(nat, nat)>) {
    && InRange(t)
    && people == PeopleAfter(t) && best == BestAfter(t)
    && NextSlot(n, t.span, t.index, best) == slot
  }

  /** Two chains, the second starting with the trial the first leads to,
      make one chain. */
  lemma ChainConcat(d: Diagram, eval: seq<string> -> nat, a: seq<Trial>, b: seq<Trial>)
    requires Chain(d, eval, a) && Chain(d, eval, b)
    requires |a| > 0 && |b| > 0 ==> Follows(|d.body.people|, a[|a| - 1], b[0])
    ensures Chain(d, eval, a + b)
  {
    var c := a + b;
    forall k | 0 <= k < |c|
      ensures c[k] == if k < |a| then a[k] else b[k - |a|]
    {
    }
    forall k | 1 <= k < |c|
      ensures Follows(|d.body.people|, c[k - 1], c[k])
    {
      if k < |a| {
        assert c[k - 1] == a[k - 1];
      } else if k == |a| {
        assert c[k - 1] == a[|a| - 1];
      } else {
        assert c[k - 1] == b[k - 1 - |a|];
      }
    }
  }

  /** The slot after the last index of `span`: index 0 of the halved span. */
  function Halved(span: nat): Option<(nat, nat)> {
    if span / 2 >= 1 then Some((span / 2, 0)) else None
  }

  /** The slot the inner loop runs next, at index `i` of `span`. */
  function Resume(n: nat, span: nat, i: nat): Option<(nat, nat)> {
    if i < n - span then Some((span, i)) else Halved(span)
  }

  /** What a pass over `span` from `people` and `best` has done: a chain
      of trials that starts at index 0 of `span` and leaves the ordering
      `people'`, the count `best'` and the next slot `slot`. */
  predicate Swept(d: Diagram, eval: seq<string> -> nat, span: nat, people: seq<string>, best: nat,
                  people': seq<string>, best': nat, trials: seq<Trial>, slot: Option<(nat, nat)>)
    requires 1 <= span < |people|
  {
    && |trials| > 0 && Chain(d, eval, trials)
    && trials[0] == TrialAt(d, eval, span, 0, people, best)
    && Leads(|people|, trials[|trials| - 1], people', best', slot)
  }

  /** The state of the inner loop before index `i`. */
  predicate SweepAt(d: Diagram, eval: seq<string> -> nat, span: nat, people: seq<string>, best: nat,
                    i: nat, people': seq<string>, best': nat, trials: seq<Trial>)
    requires 1 <= span < |people|
  {
    && i <= |people| - span && |people'| == |people|
    && (i == 0 ==> trials == [] && people' == people && best' == best)
    && (i > 0 ==> Swept(d, eval, span, people, best, people', best', trials, Resume(|people|, span, i)))
  }

  /** The trial at index `i` extends the pass: to index `i + 1`, or, when
      the count it leaves is zero, to the end of the pass. */
  lemma SweepStep(d: Diagram, eval: seq<string> -> nat, span: nat, people: seq<string>, best: nat,
                  i: nat, people': seq<string>, best': nat, trials: seq<Trial>)
    requires 1 <= span < |people| && |people| == |d.body.people| && i < |people| - span
    requires SweepAt(d, eval, span, people, best, i, people', best', trials)
    ensures var t := TrialAt(d, eval, span, i, people', best');
      && (BestAfter(t) == 0 ==>
            Swept(d, eval, span, people, best, PeopleAfter(t), BestAfter(t), trials + [t], Halved(span)))
      && (BestAfter(t) != 0 ==>
            SweepAt(d, eval, span, people, best, i + 1, PeopleAfter(t), BestAfter(t), trials + [t]))
  {
    var t := TrialAt(d, eval, span, i, people', best');
    var n := |people|;
    assert Scored(d, eval, t);
    if i > 0 {
      assert Follows(n, trials[|trials| - 1], t);
    }
    ChainConcat(d, eval, trials, [t]);
    var trials' := trials + [t];
    assert trials'[0] == TrialAt(d, eval, span, 0, people, best);
    assert trials'[|trials'| - 1] == t;
  }

  /** One pass of the inner loop, over every index of `span`: each trial
      swaps `i` and `i + span` in the best ordering so far and keeps the
      swap only on a strict improvement; the pass ends early once the count
      is zero. Its trials form a chain that starts at index 0 of `span`
      and leads to the halved span. */
  method SweepSpan(d: Diagram, eval: seq<string> -> nat, span: nat, people: seq<string>, best: nat)
    returns (people': seq<string>, best': nat, trials: seq<Trial>)
    requires 1 <= span < |people| && |people| == |d.body.people|
    ensures Swept(d, eval, span, people, best, people', best', trials, Halved(span))
  {
    var n := |people|;
    people', best', trials := people, best, [];
    var i := 0;
    while i < n - span
      invariant SweepAt(d, eval, span, people, best, i, people', best', trials)
    {
      var t := TrialAt(d, eval, span, i, people', best');
      SweepStep(d, eval, span, people, best, i, people', best', trials);
      trials := trials + [t];
      if t.count < best' {
        people' := Candidate(t);
        best' := t.count;
      }
      assert people' == PeopleAfter(t) && best' == BestAfter(t);
      if best' == 0 {
        break;
      }
      i := i + 1;
    }
  }

  /** The slot the outer loop runs next, at span `span`. */
  function SpanSlot(span: nat): Option<(nat, nat)> {
    if span >= 1 then Some((span, 0)) else None
  }

  /** The state of the outer loop before span `span`: nothing run yet, or
      a run so far whose last trial leads to index 0 of `span`. */
  predicate SearchAt(d: Diagram, eval: seq<string> -> nat, span: nat,
                     people: seq<string>, best: nat, log: seq<Trial>)
  {
    var n := |d.body.people|;
    && n >= 2 && span < n && |people| == n
    && (|log| == 0 ==> span == Pow2Floor(n - 1) && people == d.body.people
                       && best == Score(d, eval, d.body.people))
    && (|log| > 0 ==> && StartsRun(d, eval, log[0]) && Chain(d, eval, log)
                      && Leads(n, log[|log| - 1], people, best, SpanSlot(span)))
  }

  /** A pass over `span` carries the outer loop to the halved span. */
  lemma SearchStep(d: Diagram, eval: seq<string> -> nat, span: nat, people: seq<string>, best: nat,
                   log: seq<Trial>, people': seq<string>, best': nat, trials: seq<Trial>)
    requires span >= 1 && SearchAt(d, eval, span, people, best, log)
    requires Swept(d, eval, span, people, best, people', best', trials, Halved(span))
    ensures SearchAt(d, eval, span / 2, people', best', log + trials)
  {
    var n := |d.body.people|;
    if |log| > 0 {
      assert Follows(n, log[|log| - 1], trials[0]);
    }
    ChainConcat(d, eval, log, trials);
    var log' := log + trials;
    assert log'[|log'| - 1] == trials[|trials| - 1];
    if |log| > 0 {
      assert log'[0] == log[0];
    } else {
      assert log'[0] == trials[0];
    }
  }

  /** Once the spans are used up, the run is whole. */
  lemma SearchDone(d: Diagram, eval: seq<string> -> nat, people: seq<string>, best: nat, log: seq<Trial>)
    requires SearchAt(d, eval, 0, people, best, log)
    ensures ValidTrace(d, eval, log)
    ensures Leads(|d.body.people|, log[|log| - 1], people, best, None)
  {
  }

  /** What the search returns, read off a whole run and the state its last
      trial leaves. */
  lemma SearchOutcome(d: Diagram, eval: seq<string> -> nat, log: seq<Trial>, people: seq<string>, best: nat)
    requires ValidTrace(d, eval, log)
    requires Leads(|d.body.people|, log[|log| - 1], people, best, None)
    ensures log == Run(d, eval)
    ensures |people| == |d.body.people| && multiset(people) == multiset(d.body.people)
    ensures best == Score(d, eval, people) && best <= Score(d, eval, d.body.people)
    ensures |log| <= TotalTrials(|d.body.people|, Pow2Floor(|d.body.people| - 1))
    ensures best > 0 ==> |log| == TotalTrials(|d.body.people|, Pow2Floor(|d.body.people| - 1))
  {
    RunOutcome(d, eval, log);
    ValidIsRun(d, eval, log);
    RunLength(d, eval);
  }

  /** The search: spans from the largest power of two below the number of
      people down to 1, one sweep per span. Its trials are the run of the
      script; the result is the best ordering found, a reordering of the
      parsed people, with its count, never above the count of the parsed
      ordering, and the number of trials. */
  method Optimize(d: Diagram, eval: seq<string> -> nat)
    returns (people: seq<string>, best: nat, original: nat, iterations: nat, log: seq<Trial>)
    requires |d.body.people| >= 2
    ensures ValidTrace(d, eval, log) && log == Run(d, eval) && iterations == |log|
    ensures Leads(|d.body.people|, log[|log| - 1], people, best, None)
    ensures original == Score(d, eval, d.body.people)
    ensures |people| == |d.body.people| && multiset(people) == multiset(d.body.people)
    ensures best == Score(d, eval, people) && best <= original
    ensures iterations <= TotalTrials(|d.body.people|, Pow2Floor(|d.body.people| - 1))
    ensures best > 0 ==> iterations == TotalTrials(|d.body.people|, Pow2Floor(|d.body.people| - 1))
  {
    var n := |d.body.people|;
    var span: nat := Pow2Floor(n - 1);
    people := d.body.people;
    best := Score(d, eval, people);
    original := best;
    iterations := 0;
    log := [];
    while span >= 1
      invariant SearchAt(d, eval, span, people, best, log)
      invariant iterations == |log|
      decreases span
    {
      var people', best', trials := SweepSpan(d, eval, span, people, best);
      SearchStep(d, eval, span, people, best, log, people', best', trials);
      people, best := people', best';
      iterations := iterations + |trials|;
      log := log + trials;
      span := span / 2;
    }
    SearchDone(d, eval, people, best, log);
    SearchOutcome(d, eval, log, people, best);
  }

  /** A single trial keeps the ordering a reordering of what it started
      from, keeps the best count the count of the ordering it leaves, and
      never raises it. */
  lemma TrialKeeps(d: Diagram, eval: seq<string> -> nat, t: Trial)
    requires Scored(d, eval, t) && t.bestBefore == Score(d, eval, t.before)
    ensures BestAfter(t) == Score(d, eval, PeopleAfter(t))
    ensures multiset(PeopleAfter(t)) == multiset(t.before)
    ensures BestAfter(t) <= t.bestBefore
  {
    SwapExchanges(t.before, t.index, t.index + t.span);
  }

  /** Along a chain whose first count is the count of its first ordering,
      every trial starts from a reordering of that ordering, with its
      count. */
  lemma {:induction false} TraceConsistent(d: Diagram, eval: seq<string> -> nat, log: seq<Trial>, k: nat)
    requires Chain(d, eval, log) && k < |log|
    requires log[0].bestBefore == Score(d, eval, log[0].before)
    ensures log[k].bestBefore == Score(d, eval, log[k].before)
    ensures multiset(log[k].before) == multiset(log[0].before)
    ensures BestAfter(log[k]) == Score(d, eval, PeopleAfter(log[k]))
    ensures multiset(PeopleAfter(log[k])) == multiset(log[0].before)
    decreases k
  {
    if k > 0 {
      TraceConsistent(d, eval, log, k - 1);
      assert Follows(|d.body.people|, log[k - 1], log[k]);
    }
    TrialKeeps(d, eval, log[k]);
  }

  /** Along a chain the best count never rises. */
  lemma {:induction false} TraceMonotone(d: Diagram, eval: seq<string> -> nat, log: seq<Trial>, j: nat, k: nat)
    requires Chain(d, eval, log) && j <= k < |log|
    ensures log[k].bestBefore <= log[j].bestBefore
    ensures BestAfter(log[k]) <= BestAfter(log[j]) <= log[j].bestBefore
    decreases k
  {
    if j < k {
      TraceMonotone(d, eval, log, j, k - 1);
      assert Follows(|d.body.people|, log[k - 1], log[k]);
    }
  }

  /** Once a trial leaves the count at zero, each remaining span runs one
      trial, at its index 0, from the ordering that trial left, and none of
      them changes anything. */
  lemma {:induction false} ZeroShortCircuit(d: Diagram, eval: seq<string> -> nat, log: seq<Trial>, k: nat)
    requires Chain(d, eval, log) && |log| > 0 && Stops(|d.body.people|, log[|log| - 1])
    requires k < |log| && BestAfter(log[k]) == 0
    ensures |log| == k + 1 + Halvings(log[k].span)
    ensures forall j :: k < j < |log| ==>
      log[j].index == 0 && log[j].before == PeopleAfter(log[k]) && log[j].bestBefore == 0
    ensures forall j :: k <= j < |log| ==> PeopleAfter(log[j]) == PeopleAfter(log[k])
    decreases |log| - k
  {
    var n := |d.body.people|;
    var t := log[k];
    if k + 1 < |log| {
      var u := log[k + 1];
      assert Follows(n, t, u);
      assert u.span == t.span / 2 && u.index == 0;
      assert u.before == PeopleAfter(t) && u.bestBefore == 0;
      assert !Accepted(u) && BestAfter(u) == 0;
      ZeroShortCircuit(d, eval, log, k + 1);
    } else {
      assert t.span <= 1;
    }
  }

  /** A chain that runs until the loops stop is the run from its first
      slot: each trial is determined by the one before it. */
  lemma {:induction false} ChainIsRunFrom(d: Diagram, eval: seq<string> -> nat, log: seq<Trial>)
    requires |log| > 0 && Chain(d, eval, log) && Stops(|d.body.people|, log[|log| - 1])
    ensures InRange(log[0]) && |log[0].before| == |d.body.people|
    ensures log == RunFrom(d, eval, log[0].span, log[0].index, log[0].before, log[0].bestBefore)
    decreases |log|
  {
    var n := |d.body.people|;
    var t := log[0];
    assert Scored(d, eval, t);
    assert t == TrialAt(d, eval, t.span, t.index, t.before, t.bestBefore);
    if |log| > 1 {
      var rest := log[1..];
      assert forall k :: 0 <= k < |rest| ==> rest[k] == log[k + 1];
      assert Chain(d, eval, rest);
      ChainIsRunFrom(d, eval, rest);
      assert Follows(n, t, rest[0]);
      assert log == [t] + rest;
    }
  }

  /** The run from any slot is a chain that ends where the loops stop. */
  lemma {:induction false} RunFromChain(d: Diagram, eval: seq<string> -> nat, span: nat, i: nat,
                                        people: seq<string>, best: nat)
    requires 1 <= span && i + span < |people| && |people| == |d.body.people|
    ensures var log := RunFrom(d, eval, span, i, people, best);
      && log[0] == TrialAt(d, eval, span, i, people, best)
      && Chain(d, eval, log) && Stops(|people|, log[|log| - 1])
    decreases span, |people| - i
  {
    var t := TrialAt(d, eval, span, i, people, best);
    assert Scored(d, eval, t);
    var next := NextSlot(|people|, span, i, BestAfter(t));
    RunFromCons(d, eval, span, i, people, best);
    if next.Some? {
      var s, j := next.value.0, next.value.1;
      var rest := RunFrom(d, eval, s, j, PeopleAfter(t), BestAfter(t));
      RunFromChain(d, eval, s, j, PeopleAfter(t), BestAfter(t));
      ChainCons(d, eval, t, rest);
    } else {
      assert Chain(d, eval, [t]);
    }
  }

  /** The run from a slot is its trial, followed by the run from the slot
      `NextSlot` names, if any. */
  lemma RunFromCons(d: Diagram, eval: seq<string> -> nat, span: nat, i: nat,
                    people: seq<string>, best: nat)
    requires 1 <= span && i + span < |people|
    ensures var t := TrialAt(d, eval, span, i, people, best);
      var next := NextSlot(|people|, span, i, BestAfter(t));
      && (next.None? ==> RunFrom(d, eval, span, i, people, best) == [t])
      && (next.Some? ==>
            && 1 <= next.value.0 && next.value.1 + next.value.0 < |PeopleAfter(t)|
            && RunFrom(d, eval, span, i, people, best)
               == [t] + RunFrom(d, eval, next.value.0, next.value.1, PeopleAfter(t), BestAfter(t)))
  {
  }

  /** A scored trial followed by the chain it leads into is a chain with
      the same last trial. */
  lemma ChainCons(d: Diagram, eval: seq<string> -> nat, t: Trial, rest: seq<Trial>)
    requires Scored(d, eval, t) && Chain(d, eval, rest) && |rest| > 0
    requires Follows(|d.body.people|, t, rest[0])
    ensures var log := [t] + rest;
      Chain(d, eval, log) && log[0] == t && log[|log| - 1] == rest[|rest| - 1]
  {
    assert Chain(d, eval, [t]);
    ChainConcat(d, eval, [t], rest);
  }

  /** `Run` is a whole run of the script. */
  lemma RunIsValid(d: Diagram, eval: seq<string> -> nat)
    requires |d.body.people| >= 2
    ensures ValidTrace(d, eval, Run(d, eval))
  {
    var p := d.body.people;
    var span0 := Pow2Floor(|p| - 1);
    var log := RunFrom(d, eval, span0, 0, p, Score(d, eval, p));
    assert log == Run(d, eval);
    RunFromChain(d, eval, span0, 0, p, Score(d, eval, p));
    assert StartsRun(d, eval, log[0]);
  }

  /** A whole run of the script is `Run`. */
  lemma ValidIsRun(d: Diagram, eval: seq<string> -> nat, log: seq<Trial>)
    requires ValidTrace(d, eval, log)
    ensures log == Run(d, eval)
  {
    ChainIsRunFrom(d, eval, log);
  }

  /** The whole runs of the script are exactly one: a log is a whole run
      if and only if it is `Run`. */
  lemma RunCharacterization(d: Diagram, eval: seq<string> -> nat, log: seq<Trial>)
    requires |d.body.people| >= 2
    ensures ValidTrace(d, eval, log) <==> log == Run(d, eval)
  {
    RunIsValid(d, eval);
    if ValidTrace(d, eval, log) {
      ValidIsRun(d, eval, log);
    }
  }

  /** The count a run from some slot ends with is at most the count it
      starts with. */
  lemma RunFromFinal(d: Diagram, eval: seq<string> -> nat, span: nat, i: nat,
                     people: seq<string>, best: nat)
    requires 1 <= span && i + span < |people| && |people| == |d.body.people|
    ensures var log := RunFrom(d, eval, span, i, people, best);
      BestAfter(log[|log| - 1]) <= best
  {
    var log := RunFrom(d, eval, span, i, people, best);
    RunFromChain(d, eval, span, i, people, best);
    TraceMonotone(d, eval, log, 0, |log| - 1);
  }

  /** From index `i` of `span` the loops run at most the remaining indices
      of `span` and then `n - s` trials for each smaller span `s`. */
  lemma {:induction false} RunFromAtMost(d: Diagram, eval: seq<string> -> nat, span: nat, i: nat,
                                         people: seq<string>, best: nat)
    requires 1 <= span && i + span < |people|
    ensures |RunFrom(d, eval, span, i, people, best)|
            <= (|people| - span - i) + TotalTrials(|people|, span / 2)
    decreases span, |people| - i
  {
    var n := |people|;
    var t := TrialAt(d, eval, span, i, people, best);
    var p := PeopleAfter(t);
    var b := BestAfter(t);
    var log := RunFrom(d, eval, span, i, people, best);
    if b != 0 && i + 1 < n - span {
      assert log == [t] + RunFrom(d, eval, span, i + 1, p, b);
      RunFromAtMost(d, eval, span, i + 1, p, b);
    } else if span / 2 >= 1 {
      assert log == [t] + RunFrom(d, eval, span / 2, 0, p, b);
      RunFromAtMost(d, eval, span / 2, 0, p, b);
      assert TotalTrials(n, span / 2) == (n - span / 2) + TotalTrials(n, span / 2 / 2);
    } else {
      assert log == [t];
    }
  }

  /** When the count never reaches zero, the loops run every remaining
      index of `span` and `n - s` trials for each smaller span `s`. */
  lemma {:induction false} RunFromExactly(d: Diagram, eval: seq<string> -> nat, span: nat, i: nat,
                                          people: seq<string>, best: nat)
    requires 1 <= span && i + span < |people| && |people| == |d.body.people|
    requires var log := RunFrom(d, eval, span, i, people, best);
      BestAfter(log[|log| - 1]) > 0
    ensures |RunFrom(d, eval, span, i, people, best)|
            == (|people| - span - i) + TotalTrials(|people|, span / 2)
    decreases span, |people| - i, 1
  {
    var t := TrialAt(d, eval, span, i, people, best);
    if BestAfter(t) != 0 && i + 1 < |people| - span {
      ExactlyNext(d, eval, span, i, people, best);
    } else if span / 2 >= 1 {
      ExactlyHalve(d, eval, span, i, people, best);
    } else {
      RunFromStop(d, eval, span, i, people, best);
      assert BestAfter(t) > 0 && |people| - span - i == 1;
    }
  }

  /** `RunFromExactly` when the loops move on to the next index. */
  lemma {:induction false} ExactlyNext(d: Diagram, eval: seq<string> -> nat, span: nat, i: nat,
                                       people: seq<string>, best: nat)
    requires 1 <= span && i + span < |people| && |people| == |d.body.people|
    requires var t := TrialAt(d, eval, span, i, people, best);
      BestAfter(t) != 0 && i + 1 < |people| - span
    requires var log := RunFrom(d, eval, span, i, people, best);
      BestAfter(log[|log| - 1]) > 0
    ensures |RunFrom(d, eval, span, i, people, best)|
            == (|people| - span - i) + TotalTrials(|people|, span / 2)
    decreases span, |people| - i, 0
  {
    var t := TrialAt(d, eval, span, i, people, best);
    var p, b := PeopleAfter(t), BestAfter(t);
    assert |p| == |people|;
    RunFromNext(d, eval, span, i, people, best);
    RunFromExactly(d, eval, span, i + 1, p, b);
  }

  /** `RunFromExactly` when the loops move on to the halved span. */
  lemma {:induction false} ExactlyHalve(d: Diagram, eval: seq<string> -> nat, span: nat, i: nat,
                                        people: seq<string>, best: nat)
    requires 1 <= span && i + span < |people| && |people| == |d.body.people|
    requires var t := TrialAt(d, eval, span, i, people, best);
      !(BestAfter(t) != 0 && i + 1 < |people| - span) && span / 2 >= 1
    requires var log := RunFrom(d, eval, span, i, people, best);
      BestAfter(log[|log| - 1]) > 0
    ensures |RunFrom(d, eval, span, i, people, best)|
            == (|people| - span - i) + TotalTrials(|people|, span / 2)
    decreases span, |people| - i, 0
  {
    var n := |people|;
    var t := TrialAt(d, eval, span, i, people, best);
    var p, b := PeopleAfter(t), BestAfter(t);
    assert |p| == n;
    RunFromHalve(d, eval, span, i, people, best);
    RunFromFinal(d, eval, span / 2, 0, p, b);
    assert b > 0 && n - span - i == 1;
    RunFromExactly(d, eval, span / 2, 0, p, b);
    assert TotalTrials(n, span / 2) == (n - span / 2) + TotalTrials(n, span / 2 / 2);
  }

  /** A trial that leaves the count above zero with indices of `span` still
      to come is followed by the run from the next index. */
  lemma RunFromNext(d: Diagram, eval: seq<string> -> nat, span: nat, i: nat,
                    people: seq<string>, best: nat)
    requires 1 <= span && i + span < |people|
    requires var t := TrialAt(d, eval, span, i, people, best);
      BestAfter(t) != 0 && i + 1 < |people| - span
    ensures var t := TrialAt(d, eval, span, i, people, best);
      var log := RunFrom(d, eval, span, i, people, best);
      var rest := RunFrom(d, eval, span, i + 1, PeopleAfter(t), BestAfter(t));
      |log| == 1 + |rest| && log[|log| - 1] == rest[|rest| - 1]
  {
    var t := TrialAt(d, eval, span, i, people, best);
    var rest := RunFrom(d, eval, span, i + 1, PeopleAfter(t), BestAfter(t));
    assert RunFrom(d, eval, span, i, people, best) == [t] + rest;
  }

  /** A trial that ends the indices of `span`, or leaves the count at zero,
      is followed by the run of the halved span, when there is one. */
  lemma RunFromHalve(d: Diagram, eval: seq<string> -> nat, span: nat, i: nat,
                     people: seq<string>, best: nat)
    requires 1 <= span && i + span < |people|
    requires var t := TrialAt(d, eval, span, i, people, best);
      !(BestAfter(t) != 0 && i + 1 < |people| - span) && span / 2 >= 1
    ensures var t := TrialAt(d, eval, span, i, people, best);
      var log := RunFrom(d, eval, span, i, people, best);
      var rest := RunFrom(d, eval, span / 2, 0, PeopleAfter(t), BestAfter(t));
      |log| == 1 + |rest| && log[|log| - 1] == rest[|rest| - 1]
  {
    var t := TrialAt(d, eval, span, i, people, best);
    var rest := RunFrom(d, eval, span / 2, 0, PeopleAfter(t), BestAfter(t));
    assert RunFrom(d, eval, span, i, people, best) == [t] + rest;
  }

  /** The trial that ends span 1 is the last. */
  lemma RunFromStop(d: Diagram, eval: seq<string> -> nat, span: nat, i: nat,
                    people: seq<string>, best: nat)
    requires 1 <= span && i + span < |people|
    requires var t := TrialAt(d, eval, span, i, people, best);
      !(BestAfter(t) != 0 && i + 1 < |people| - span) && span / 2 < 1
    ensures RunFrom(d, eval, span, i, people, best) == [TrialAt(d, eval, span, i, people, best)]
  {
  }

  /** What a whole run leaves: a reordering of the parsed people whose
      count is the count the run ends with, never above the starting
      count. */
  lemma RunOutcome(d: Diagram, eval: seq<string> -> nat, log: seq<Trial>)
    requires ValidTrace(d, eval, log)
    ensures var last := log[|log| - 1];
      && InRange(last)
      && BestAfter(last) == Score(d, eval, PeopleAfter(last))
      && multiset(PeopleAfter(last)) == multiset(d.body.people)
      && BestAfter(last) <= Score(d, eval, d.body.people)
  {
    var k := |log| - 1;
    TraceConsistent(d, eval, log, k);
    TraceMonotone(d, eval, log, 0, k);
  }

  /** From any slot, the trials still to come, counted both ways. */
  lemma RunFromLength(d: Diagram, eval: seq<string> -> nat, span: nat, i: nat,
                      people: seq<string>, best: nat)
    requires 1 <= span && i + span < |people| && |people| == |d.body.people|
    ensures |RunFrom(d, eval, span, i, people, best)|
            <= (|people| - span - i) + TotalTrials(|people|, span / 2)
    ensures BestAfter(Last(RunFrom(d, eval, span, i, people, best))) > 0 ==>
      |RunFrom(d, eval, span, i, people, best)| == (|people| - span - i) + TotalTrials(|people|, span / 2)
  {
    RunFromAtMost(d, eval, span, i, people, best);
    var log := RunFrom(d, eval, span, i, people, best);
    if BestAfter(log[|log| - 1]) > 0 {
      RunFromExactly(d, eval, span, i, people, best);
    }
  }

  /** The run makes `n - s` trials for every span `s` unless the count
      reaches zero, and never more. */
  lemma RunLength(d: Diagram, eval: seq<string> -> nat)
    requires |d.body.people| >= 2
    ensures |Run(d, eval)| <= TotalTrials(|d.body.people|, Pow2Floor(|d.body.people| - 1))
    ensures BestAfter(Last(Run(d, eval))) > 0 ==>
      |Run(d, eval)| == TotalTrials(|d.body.people|, Pow2Floor(|d.body.people| - 1))
  {
    var span0 := Pow2Floor(|d.body.people| - 1);
    RunLengthFrom(d, eval, span0);
  }

  lemma RunLengthFrom(d: Diagram, eval: seq<string> -> nat, span0: nat)
    requires 1 <= span0 < |d.body.people|
    requires Run(d, eval) == RunFrom(d, eval, span0, 0, d.body.people, Score(d, eval, d.body.people))
    ensures |Run(d, eval)| <= TotalTrials(|d.body.people|, span0)
    ensures BestAfter(Last(Run(d, eval))) > 0 ==> |Run(d, eval)| == TotalTrials(|d.body.people|, span0)
  {
    var n := |d.body.people|;
    var p := d.body.people;
    assert TotalTrials(n, span0) == (n - span0 - 0) + TotalTrials(n, span0 / 2);
    RunFromLength(d, eval, span0, 0, p, Score(d, eval, p));
  }
}
