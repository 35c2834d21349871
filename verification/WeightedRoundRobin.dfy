/** The weighted round-robin balancer of coro_io's channel.hpp. */
module WeightedRoundRobin {

  // ---- greatest common divisor ------------------------------------------------------------

  ghost predicate Divides(d: nat, n: nat) {
    exists k: nat :: n == d * k
  }

  /** std::gcd */
  function Gcd(a: nat, b: nat): nat
    decreases b
  {
    if b == 0 then a else Gcd(b, a % b)
  }

  lemma {:induction false} DividesCombination(d: nat, a: nat, b: nat, q: nat)
    requires Divides(d, b)
    ensures Divides(d, a) <==> Divides(d, a + q * b)
  {
    var k: nat :| b == d * k;
    MulRotate(q, d, k);
    if Divides(d, a) {
      var j: nat :| a == d * j;
      MulAdd(d, j, q * k);
      assert a + q * b == d * (j + q * k);
    }
    if Divides(d, a + q * b) {
      var j: nat :| a + q * b == d * j;
      MulAdd(d, j - q * k, q * k);
      assert a == d * (j - q * k);
      NaturalFactor(d, j - q * k);
    }
  }

  lemma {:induction false} NaturalFactor(d: nat, x: int)
    requires d * x >= 0
    ensures Divides(d, d * x)
  {
    if d == 0 {
      assert d * x == d * 0;
    } else {
      assert x >= 0;
    }
  }

  lemma {:induction false} MulRotate(q: nat, d: nat, k: nat)
    ensures q * (d * k) == d * (q * k)
  {
  }

  lemma {:induction false} MulAdd(d: int, x: int, y: int)
    ensures d * (x + y) == d * x + d * y
  {
  }

  lemma {:induction false} GcdDivisors(a: nat, b: nat, d: nat)
    ensures Divides(d, Gcd(a, b)) <==> Divides(d, a) && Divides(d, b)
    decreases b
  {
    if b == 0 {
      assert 0 == d * 0;
      assert Divides(d, 0);
    } else {
      GcdDivisors(b, a % b, d);
      if Divides(d, b) {
        assert a == a % b + (a / b) * b;
        DividesCombination(d, a % b, b, a / b);
      }
    }
  }

  lemma {:induction false} DividesItself(g: nat)
    ensures Divides(g, g)
  {
    assert g == g * 1;
  }

  // ---- the schedule --------------------------------------------------------------------------

  /** wrr_current_ and weight_current_. */
  datatype State = State(current: int, weight: int)

  const START := State(-1, 0)

  /** The picks of one round at this weight, from server i on. */
  function Row(weights: seq<nat>, weight: int, i: nat): (picks: seq<State>)
    requires i <= |weights|
    decreases |weights| - i
  {
    if i == |weights| then []
    else (if weights[i] >= weight then [State(i, weight)] else []) + Row(weights, weight, i + 1)
  }

  /** The picks of the rounds with weights weight, weight - g, ... down to above zero. */
  function Rows(weights: seq<nat>, g: nat, weight: int): seq<State>
    requires g > 0
    decreases weight
  {
    if weight <= 0 then [] else Row(weights, weight, 0) + Rows(weights, g, weight - g)
  }

  /** The picks still to come before the weight starts again from the maximum. */
  function Rest(weights: seq<nat>, g: nat, s: State): seq<State>
    requires g > 0 && -1 <= s.current < |weights|
  {
    if s.weight <= 0 then [] else Row(weights, s.weight, s.current + 1) + Rows(weights, g, s.weight - g)
  }

  function Max(weights: seq<nat>): (m: nat)
    requires |weights| > 0
    ensures m in weights && forall i | 0 <= i < |weights| :: weights[i] <= m
  {
    if |weights| == 1 then weights[0]
    else
      var m := Max(weights[1..]);
      assert forall i | 1 <= i < |weights| :: weights[i] == weights[1..][i - 1];
      if weights[0] > m then weights[0] else m
  }

  /** get_max_weight_gcd as a fold. */
  function GcdOf(weights: seq<nat>): nat
    requires |weights| > 0
  {
    if |weights| == 1 then GcdPair(weights[0], weights[0])
    else GcdPair(GcdOf(weights[..|weights| - 1]), weights[|weights| - 1])
  }

  function GcdPair(a: nat, b: nat): nat {
    if a > b then Gcd(a, b) else Gcd(b, a)
  }

  /** The greatest common divisor: exactly the common divisors divide it. */
  lemma {:induction false} GcdOfDivisors(weights: seq<nat>, d: nat)
    requires |weights| > 0
    ensures Divides(d, GcdOf(weights)) <==> forall i | 0 <= i < |weights| :: Divides(d, weights[i])
  {
    hide Gcd, Divides;
    var last := weights[|weights| - 1];
    if |weights| == 1 {
      GcdDivisors(last, last, d);
    } else {
      var front := weights[..|weights| - 1];
      GcdOfDivisors(front, d);
      GcdDivisors(GcdOf(front), last, d);
      GcdDivisors(last, GcdOf(front), d);
      assert forall i | 0 <= i < |front| :: front[i] == weights[i];
    }
  }

  lemma {:induction false} GcdPositive(weights: seq<nat>)
    requires |weights| > 0 && Max(weights) > 0
    ensures GcdOf(weights) > 0
    ensures forall i | 0 <= i < |weights| :: Divides(GcdOf(weights), weights[i])
  {
    hide Gcd, GcdOf, Max;
    GcdOfDivisors(weights, GcdOf(weights));
    DividesItself(GcdOf(weights));
    var i :| 0 <= i < |weights| && weights[i] == Max(weights);
    assert Divides(GcdOf(weights), weights[i]);
  }

  /** One full period of picks. */
  function Cycle(weights: seq<nat>): seq<State>
    requires |weights| > 0 && Max(weights) > 0
  {
    GcdPositive(weights);
    Rows(weights, GcdOf(weights), Max(weights))
  }

  lemma {:induction false} CycleNotEmpty(weights: seq<nat>)
    requires |weights| > 0 && Max(weights) > 0
    ensures |Cycle(weights)| > 0
  {
    GcdPositive(weights);
    var i :| 0 <= i < |weights| && weights[i] == Max(weights);
    RowHolds(weights, Max(weights), 0, i);
  }

  lemma {:induction false} RowHolds(weights: seq<nat>, weight: int, i: nat, k: nat)
    requires i <= k < |weights| && weights[k] >= weight
    ensures State(k, weight) in Row(weights, weight, i)
    decreases |weights| - i
  {
    if i < k { RowHolds(weights, weight, i + 1, k); }
  }

  /** A state the balancer can be in between two calls. */
  predicate Reachable(weights: seq<nat>, s: State)
    requires |weights| > 0
  {
    || s == START
    || (0 <= s.current < |weights| && if Max(weights) > 0 then 0 < s.weight <= Max(weights) else s.weight == 0)
  }

  /** The picks to come, the next one first. */
  function Upcoming(weights: seq<nat>, s: State): (picks: seq<State>)
    requires |weights| > 0 && Max(weights) > 0 && Reachable(weights, s)
    ensures |picks| > 0
  {
    GcdPositive(weights);
    CycleNotEmpty(weights);
    var rest := Rest(weights, GcdOf(weights), s);
    if |rest| > 0 then rest else Cycle(weights)
  }

  /** What one call makes of the state when not all weights are zero. */
  function Next(weights: seq<nat>, s: State): State
    requires |weights| > 0 && Max(weights) > 0 && Reachable(weights, s)
  {
    Upcoming(weights, s)[0]
  }

  /** One pass through the loop, before the weights are compared. */
  function Tick(weights: seq<nat>, s: State): State
    requires |weights| > 0 && Max(weights) > 0 && Reachable(weights, s)
  {
    var i := (s.current + 1) % |weights|;
    var lowered := s.weight - GcdOf(weights);
    State(i, if i != 0 then s.weight else if lowered <= 0 then Max(weights) else lowered)
  }

  /** The rest of the period, the server of tick t included. */
  function Line(weights: seq<nat>, g: nat, t: State): seq<State>
    requires g > 0 && 0 <= t.current < |weights|
  {
    Row(weights, t.weight, t.current) + Rows(weights, g, t.weight - g)
  }

  lemma {:induction false} TickLine(weights: seq<nat>, s: State)
    requires |weights| > 0 && Max(weights) > 0 && Reachable(weights, s)
    ensures var t, g := Tick(weights, s), GcdOf(weights);
            && Reachable(weights, t) && t != START && g > 0
            && (Rest(weights, g, s) == Line(weights, g, t) || (Rest(weights, g, s) == [] && Cycle(weights) == Line(weights, g, t)))
  {
    hide Max, GcdOf, Row, Rows, Divides;
    GcdPositive(weights);
    var t, g := Tick(weights, s), GcdOf(weights);
    if s.weight > 0 { RowEnds(weights, s.weight); }
    RowsStart(weights, g, t.weight);
    if s.current + 1 < |weights| && s.current >= 0 {
      assert t == State(s.current + 1, s.weight);
    } else {
      assert t.current == 0;
      if s.weight - g <= 0 {
        RowsEnd(weights, g, s.weight - g);
        assert Rest(weights, g, s) == [];
      } else {
        assert Rest(weights, g, s) == [] + Rows(weights, g, t.weight);
      }
    }
  }

  lemma {:induction false} RowEnds(weights: seq<nat>, weight: int)
    ensures Row(weights, weight, |weights|) == []
  {
  }

  lemma {:induction false} RowsStart(weights: seq<nat>, g: nat, weight: int)
    requires g > 0 && weight > 0
    ensures Rows(weights, g, weight) == Row(weights, weight, 0) + Rows(weights, g, weight - g)
  {
  }

  lemma {:induction false} RowsEnd(weights: seq<nat>, g: nat, weight: int)
    requires g > 0 && weight <= 0
    ensures Rows(weights, g, weight) == []
  {
  }

  lemma {:induction false} LineHead(weights: seq<nat>, g: nat, t: State)
    requires g > 0 && 0 <= t.current < |weights| && t.weight > 0
    ensures Line(weights, g, t)
            == (if weights[t.current] >= t.weight then [t] else []) + Rest(weights, g, t)
  {
    hide Rows;
  }

  /** A tick that meets a heavy enough server makes the next pick; any other one changes
      nothing about the picks to come. */
  lemma {:induction false} TickProgress(weights: seq<nat>, s: State)
    requires |weights| > 0 && Max(weights) > 0 && Reachable(weights, s)
    ensures var t := Tick(weights, s);
            && Reachable(weights, t) && t != START && GcdOf(weights) > 0
            && if weights[t.current] >= t.weight then Upcoming(weights, s) == [t] + Rest(weights, GcdOf(weights), t)
               else Upcoming(weights, s) == Upcoming(weights, t)
  {
    hide Max, GcdOf, Tick, Rest, Line, Cycle;
    TickLine(weights, s);
    LineHead(weights, GcdOf(weights), Tick(weights, s));
    CycleNotEmpty(weights);
  }

  // ---- the class ---------------------------------------------------------------------------------

  class Balancer {
    const weights: seq<nat>
    var maxGcd: nat
    var maxWeight: nat
    var wrrCurrent: int
    var weightCurrent: int

    ghost predicate Valid()
      reads this
    {
      && |weights| > 0
      && maxGcd == GcdOf(weights) && maxWeight == Max(weights)
      && Reachable(weights, Now())
      && (maxWeight == 0 ==> weightCurrent == 0)
    }

    ghost function Now(): State
      reads this
    {
      State(wrrCurrent, weightCurrent)
    }

    constructor (weights: seq<nat>)
      requires |weights| > 0
      ensures Valid() && Now() == START && this.weights == weights
    {
      this.weights := weights;
      maxGcd, maxWeight, wrrCurrent, weightCurrent := 0, 0, -1, 0;
      new;
      maxGcd := MaxWeightGcd();
      maxWeight := MaxWeight();
    }

    method MaxWeightGcd() returns (res: nat)
      requires |weights| > 0
      ensures res == GcdOf(weights)
    {
      res := weights[0];
      var i := 0;
      while i < |weights|
        invariant 0 <= i <= |weights|
        invariant res == if i == 0 then weights[0] else GcdOf(weights[..i])
      {
        var curMax := if res > weights[i] then res else weights[i];
        var curMin := if res > weights[i] then weights[i] else res;
        res := Gcd(curMax, curMin);
        assert weights[..i + 1][..i] == weights[..i];
        i := i + 1;
      }
      assert weights[..i] == weights;
    }

    method MaxWeight() returns (m: nat)
      requires |weights| > 0
      ensures m == Max(weights)
    {
      m := weights[0];
      var i := 1;
      while i < |weights|
        invariant 1 <= i <= |weights|
        invariant m in weights && forall k | 0 <= k < i :: weights[k] <= m
      {
        if m < weights[i] { m := weights[i]; }
        i := i + 1;
      }
    }

    /** select_host_with_weight_round_robin; `rounds` counts the passes through its loop. */
    method Select() returns (selected: int, ghost rounds: nat)
      requires Valid()
      modifies this`wrrCurrent, this`weightCurrent
      ensures Valid() && wrrCurrent >= 0 && 1 <= rounds <= |weights|
      ensures maxWeight > 0 ==> selected == wrrCurrent && Now() == Next(weights, old(Now()))
      ensures maxWeight == 0 ==> wrrCurrent == (old(wrrCurrent) + 1) % |weights|
                                 && selected == if wrrCurrent == 0 then -1 else wrrCurrent
    {
      hide GcdOf, Max, Upcoming, Distance, Tick;
      rounds := 0;
      ghost var start := Now();
      ghost var top := if maxWeight > 0 then Heaviest(weights) else (wrrCurrent + 1) % |weights|;
      DistanceStep(wrrCurrent, top, |weights|);
      while true
        invariant Valid()
        invariant Distance(wrrCurrent, top, |weights|) > 0
        invariant rounds + Distance(wrrCurrent, top, |weights|) == Distance(start.current, top, |weights|) <= |weights|
        invariant if maxWeight > 0 then Next(weights, Now()) == Next(weights, start) else Now() == start
        decreases Distance(wrrCurrent, top, |weights|)
      {
        DistanceStep(wrrCurrent, top, |weights|);
        if maxWeight > 0 {
          TickProgress(weights, Now());
          TickMeaning(weights, Now());
        }
        wrrCurrent := (wrrCurrent + 1) % |weights|;
        rounds := rounds + 1;
        if wrrCurrent == 0 {
          weightCurrent := weightCurrent - maxGcd;
          if weightCurrent <= 0 {
            weightCurrent := maxWeight;
            if weightCurrent == 0 {
              return -1, rounds;
            }
          }
        }
        if weights[wrrCurrent] >= weightCurrent {
          return wrrCurrent, rounds;
        }
      }
    }

    /** operator(): the index of the client pool to use, one pool a weight. */
    method Call() returns (pool: nat)
      requires Valid()
      modifies this`wrrCurrent, this`weightCurrent
      ensures Valid() && pool < |weights| && pool == wrrCurrent
      ensures maxWeight > 0 ==> Now() == Next(weights, old(Now()))
      ensures maxWeight == 0 ==> pool == (old(wrrCurrent) + 1) % |weights|
    {
      hide Next, GcdOf, Max;
      var selected;
      ghost var rounds;
      selected, rounds := Select();
      if selected == -1 {
        selected := 0;
      }
      wrrCurrent := selected;
      assert selected < |weights|;
      pool := selected % |weights|;
    }
  }

  /** How many servers further on `top` stands. */
  ghost function Distance(current: int, top: int, n: int): int {
    if top > current then top - current else top + n - current
  }

  lemma {:induction false} DistanceStep(current: int, top: int, n: int)
    requires -1 <= current < n && 0 <= top < n
    ensures var next := (current + 1) % n;
            && next == (if current + 1 == n then 0 else current + 1)
            && 0 < Distance(current, top, n) <= n && 0 < Distance(next, top, n)
            && (next != top ==> Distance(next, top, n) == Distance(current, top, n) - 1)
  {
  }

  lemma {:induction false} TickMeaning(weights: seq<nat>, s: State)
    requires |weights| > 0 && Max(weights) > 0 && Reachable(weights, s)
    ensures var i := (s.current + 1) % |weights|;
            Tick(weights, s) == if i != 0 then State(i, s.weight)
                                else if s.weight - GcdOf(weights) <= 0 then State(i, Max(weights))
                                else State(i, s.weight - GcdOf(weights))
  {
    hide Max, GcdOf;
  }

  ghost function Heaviest(weights: seq<nat>): (i: nat)
    requires |weights| > 0
    ensures i < |weights| && weights[i] == Max(weights)
  {
    var i :| 0 <= i < |weights| && weights[i] == Max(weights);
    i
  }

  // ---- whole runs ------------------------------------------------------------------------------------

  /** The state after k calls. */
  function Run(weights: seq<nat>, k: nat): (s: State)
    requires |weights| > 0 && Max(weights) > 0
    ensures Reachable(weights, s)
  {
    if k == 0 then START
    else
      var s := Run(weights, k - 1);
      NextReachable(weights, s);
      Next(weights, s)
  }

  lemma {:induction false} NextReachable(weights: seq<nat>, s: State)
    requires |weights| > 0 && Max(weights) > 0 && Reachable(weights, s)
    ensures Reachable(weights, Next(weights, s)) && Next(weights, s) != START && GcdOf(weights) > 0
    ensures Upcoming(weights, s) == [Next(weights, s)] + Rest(weights, GcdOf(weights), Next(weights, s))
    decreases Distance(s.current, Heaviest(weights), |weights|)
  {
    hide Max, GcdOf, Upcoming, Tick, Distance, Rest;
    var t := Tick(weights, s);
    TickProgress(weights, s);
    if weights[t.current] < t.weight {
      TickCloser(weights, s);
      NextReachable(weights, t);
    } else {
      assert Upcoming(weights, s)[0] == t;
    }
  }

  /** A tick that makes no pick brings the heaviest server closer. */
  lemma {:induction false} TickCloser(weights: seq<nat>, s: State)
    requires |weights| > 0 && Max(weights) > 0 && Reachable(weights, s)
    requires Reachable(weights, Tick(weights, s)) && Tick(weights, s) != START
    requires weights[Tick(weights, s).current] < Tick(weights, s).weight
    ensures 0 < Distance(Tick(weights, s).current, Heaviest(weights), |weights|)
            < Distance(s.current, Heaviest(weights), |weights|)
  {
    hide Max, GcdOf, Tick, Distance;
    TickMeaning(weights, s);
    DistanceStep(s.current, Heaviest(weights), |weights|);
  }

  /** k modulo m. */
  function Place(k: nat, m: nat): (p: nat)
    requires m > 0
    ensures p < m
  {
    k % m
  }

  /** From the first call on the states go round the cycle. */
  lemma {:induction false} RunIsCyclic(weights: seq<nat>, k: nat)
    requires |weights| > 0 && Max(weights) > 0
    ensures |Cycle(weights)| > 0 && GcdOf(weights) > 0
    ensures var c := Cycle(weights);
            && Run(weights, k + 1) == c[Place(k, |c|)]
            && Rest(weights, GcdOf(weights), Run(weights, k + 1)) == c[Place(k, |c|) + 1..]
  {
    hide Max, GcdOf, Upcoming, Cycle, Rest, Next, Place;
    CycleNotEmpty(weights);
    var c := Cycle(weights);
    var s := Run(weights, k);
    NextReachable(weights, s);
    var rest := UpcomingCases(weights, s);
    PlaceStep(k, |c|);
    if k > 0 { RunIsCyclic(weights, k - 1); }
    assert Upcoming(weights, s) == c[Place(k, |c|)..];
    assert c[Place(k, |c|)..][0] == c[Place(k, |c|)] && c[Place(k, |c|)..][1..] == c[Place(k, |c|) + 1..];
  }

  lemma {:induction false} UpcomingCases(weights: seq<nat>, s: State) returns (rest: seq<State>)
    requires |weights| > 0 && Max(weights) > 0 && Reachable(weights, s)
    ensures GcdOf(weights) > 0 && rest == Rest(weights, GcdOf(weights), s)
    ensures Upcoming(weights, s) == if |rest| > 0 then rest else Cycle(weights)
    ensures s == START ==> rest == []
  {
    hide Max, GcdOf, Cycle, Divides;
    GcdPositive(weights);
    rest := Rest(weights, GcdOf(weights), s);
  }

  lemma {:induction false} PlaceStep(k: nat, m: nat)
    requires m > 0
    ensures Place(k, m) == if k == 0 || Place(k - 1, m) + 1 == m then 0 else Place(k - 1, m) + 1
  {
    if k > 0 { PlaceShift(k - 1, m, 1); }
  }

  lemma {:induction false} PlaceShift(k: nat, m: nat, j: nat)
    requires m > 0 && j <= m
    ensures Place(k + j, m) == if Place(k, m) + j < m then Place(k, m) + j else Place(k, m) + j - m
  {
    var q, r := k / m, k % m;
    if r + j < m {
      ModuloUnique(k + j, m, q, r + j);
    } else {
      MulAdd(m, q, 1);
      ModuloUnique(k + j, m, q + 1, r + j - m);
    }
  }

  lemma {:induction false} ModuloUnique(k: nat, m: nat, q: nat, r: nat)
    requires m > 0 && r < m && k == q * m + r
    ensures k % m == r
  {
    var d := k / m - q;
    assert d * m == r - k % m by { MulAdd(m, k / m - q, q); }
    MultipleFar(d, m);
  }

  lemma {:induction false} MultipleFar(d: int, m: nat)
    ensures d >= 1 ==> d * m >= m
    ensures d <= -1 ==> d * m <= 0 - m
  {
    if d >= 1 { MulAdd(m, d - 1, 1); }
    if d <= -1 { MulAdd(m, d + 1, -1); }
  }

  // ---- fairness --------------------------------------------------------------------------------------

  /** How often server i is picked. */
  function Picks(states: seq<State>, i: int): nat {
    if |states| == 0 then 0 else (if states[0].current == i then 1 else 0) + Picks(states[1..], i)
  }

  lemma {:induction false} PicksOfBoth(a: seq<State>, b: seq<State>, i: int)
    ensures Picks(a + b, i) == Picks(a, i) + Picks(b, i)
  {
    if |a| == 0 {
      assert a + b == b;
    } else {
      assert (a + b)[1..] == a[1..] + b;
      PicksOfBoth(a[1..], b, i);
    }
  }

  /** The states after the calls k + 1 to k + m. */
  function Window(weights: seq<nat>, k: nat, m: nat): (w: seq<State>)
    requires |weights| > 0 && Max(weights) > 0
    ensures |w| == m
  {
    if m == 0 then [] else Window(weights, k, m - 1) + [Run(weights, k + m)]
  }

  /** The cycle begun at place r. */
  function Turned(c: seq<State>, r: nat): seq<State>
    requires r <= |c|
  {
    c[r..] + c[..r]
  }

  /** A window no longer than the cycle is a stretch of it, perhaps round its end. */
  lemma {:induction false} WindowOfCycle(weights: seq<nat>, k: nat, m: nat)
    requires |weights| > 0 && Max(weights) > 0 && m <= |Cycle(weights)|
    ensures |Cycle(weights)| > 0
    ensures Window(weights, k, m) == Turned(Cycle(weights), Place(k, |Cycle(weights)|))[..m]
  {
    hide Cycle, Run, Max, Rest, Place;
    CycleNotEmpty(weights);
    var c := Cycle(weights);
    var turned := Turned(c, Place(k, |c|));
    if m > 0 {
      WindowOfCycle(weights, k, m - 1);
      RunIsCyclic(weights, k + (m - 1));
      PlaceShift(k, |c|, m - 1);
      assert turned[m - 1] == Run(weights, k + m);
      assert turned[..m] == turned[..m - 1] + [turned[m - 1]];
    }
  }

  lemma {:induction false} RowPicks(weights: seq<nat>, weight: int, i: nat, server: nat)
    requires i <= |weights| && server < |weights|
    ensures Picks(Row(weights, weight, i), server) == if i <= server && weights[server] >= weight then 1 else 0
    decreases |weights| - i
  {
    if i < |weights| {
      RowPicks(weights, weight, i + 1, server);
      PicksOfBoth(if weights[i] >= weight then [State(i, weight)] else [], Row(weights, weight, i + 1), server);
    }
  }

  function Least(a: nat, b: nat): nat {
    if a < b then a else b
  }

  /** The weight of the round that is the q-th before the last. */
  function Level(g: nat, q: nat): nat {
    q * g
  }

  lemma {:induction false} LevelStep(g: nat, q: nat)
    ensures Level(g, 0) == 0 && Level(g, q + 1) == Level(g, q) + g
  {
  }

  lemma {:induction false} LevelReached(w: nat, g: nat, q: nat)
    requires g > 0
    ensures w >= Level(g, q) <==> w / g >= q
  {
    MultipleFar(w / g - q, g);
    MulAdd(g, w / g - q, q);
  }

  /** In q rounds a server is picked in those rounds whose weight it reaches. */
  lemma {:induction false} RowsPicks(weights: seq<nat>, g: nat, q: nat, server: nat)
    requires g > 0 && server < |weights|
    ensures Picks(Rows(weights, g, Level(g, q)), server) == Least(weights[server] / g, q)
    decreases q
  {
    hide Row, Level;
    LevelStep(g, q);
    if q > 0 {
      LevelStep(g, q - 1);
      RowsPicks(weights, g, q - 1, server);
      RowPicks(weights, Level(g, q), 0, server);
      PicksOfBoth(Row(weights, Level(g, q), 0), Rows(weights, g, Level(g, q - 1)), server);
      LevelReached(weights[server], g, q);
    }
  }

  /** The turns of the servers from i on in q rounds. */
  function Turns(weights: seq<nat>, g: nat, q: nat, i: nat): nat
    requires g > 0 && i <= |weights|
    decreases |weights| - i
  {
    if i == |weights| then 0 else Least(weights[i] / g, q) + Turns(weights, g, q, i + 1)
  }

  lemma {:induction false} RowLength(weights: seq<nat>, g: nat, q: nat, i: nat)
    requires g > 0 && q > 0 && i <= |weights|
    ensures Turns(weights, g, q - 1, i) + |Row(weights, Level(g, q), i)| == Turns(weights, g, q, i)
    decreases |weights| - i
  {
    hide Level;
    if i < |weights| {
      LevelReached(weights[i], g, q);
      RowLength(weights, g, q, i + 1);
    }
  }

  lemma {:induction false} NoTurns(weights: seq<nat>, g: nat, i: nat)
    requires g > 0 && i <= |weights|
    ensures Turns(weights, g, 0, i) == 0
    decreases |weights| - i
  {
    if i < |weights| { NoTurns(weights, g, i + 1); }
  }

  lemma {:induction false} RowsLength(weights: seq<nat>, g: nat, q: nat)
    requires g > 0
    ensures |Rows(weights, g, Level(g, q))| == Turns(weights, g, q, 0)
    decreases q
  {
    hide Level, Row, Turns;
    LevelStep(g, q);
    NoTurns(weights, g, 0);
    if q > 0 {
      LevelStep(g, q - 1);
      RowsLength(weights, g, q - 1);
      RowLength(weights, g, q, 0);
    }
  }

  function Sum(weights: seq<nat>, i: nat): nat
    requires i <= |weights|
    decreases |weights| - i
  {
    if i == |weights| then 0 else weights[i] + Sum(weights, i + 1)
  }

  lemma {:induction false} AllTurns(weights: seq<nat>, g: nat, q: nat, i: nat)
    requires g > 0 && i <= |weights|
    requires forall k | 0 <= k < |weights| :: Divides(g, weights[k]) && weights[k] <= Level(g, q)
    ensures Level(g, Turns(weights, g, q, i)) == Sum(weights, i)
    decreases |weights| - i
  {
    hide Level, Divides, Least;
    LevelStep(g, 0);
    if i < |weights| {
      AllTurns(weights, g, q, i + 1);
      AllShare(weights[i], g, q);
      LevelSum(g, Least(weights[i] / g, q), Turns(weights, g, q, i + 1));
    }
  }

  lemma {:induction false} AllShare(w: nat, g: nat, q: nat)
    requires g > 0 && Divides(g, w) && w <= Level(g, q)
    ensures Level(g, Least(w / g, q)) == w && Least(w / g, q) >= 0
  {
    hide Level, Divides, Least;
    ExactQuotient(g, w);
    AtMost(w, g, q);
  }

  lemma {:induction false} LevelSum(g: nat, a: nat, b: nat)
    ensures Level(g, a) + Level(g, b) == Level(g, a + b)
  {
  }

  lemma {:induction false} AtMost(w: nat, g: nat, q: nat)
    requires g > 0 && w <= Level(g, q)
    ensures Least(w / g, q) == w / g
  {
    hide Level;
    LevelReached(w, g, q + 1);
    LevelStep(g, q);
  }

  lemma {:induction false} ExactQuotient(g: nat, w: nat)
    requires g > 0 && Divides(g, w)
    ensures Level(g, w / g) == w
  {
    var k: nat :| w == g * k;
    ModuloUnique(w, g, k, 0);
  }

  /** The cycle is as long as the sum of the weights over their divisor, and holds every
      server as often as its share says. */
  lemma {:induction false} CycleIsFair(weights: seq<nat>, server: nat)
    requires |weights| > 0 && Max(weights) > 0 && server < |weights|
    ensures var g := GcdOf(weights);
            && g > 0
            && |Cycle(weights)| * g == Sum(weights, 0)
            && Picks(Cycle(weights), server) * g == weights[server]
  {
    hide Max, GcdOf, Rows, Turns, Picks, Divides;
    GcdPositive(weights);
    var g := GcdOf(weights);
    var q := Max(weights) / g;
    ExactQuotient(g, Max(weights));
    RowsLength(weights, g, q);
    AllTurns(weights, g, q, 0);
    RowsPicks(weights, g, q, server);
    AtMost(weights[server], g, q);
    ExactQuotient(g, weights[server]);
  }

  /** Whatever came before, any |cycle| consecutive calls pick each server in proportion to
      its weight, and the state afterwards is the one they started from. */
  lemma {:induction false} Fairness(weights: seq<nat>, k: nat, server: nat)
    requires |weights| > 0 && Max(weights) > 0 && server < |weights|
    ensures var g, m := GcdOf(weights), |Cycle(weights)|;
            && g > 0 && m > 0 && m * g == Sum(weights, 0)
            && Picks(Window(weights, k, m), server) * g == weights[server]
            && (k > 0 ==> Run(weights, k + m) == Run(weights, k))
  {
    hide Max, GcdOf, Cycle, Run, Window, Picks, Rest, Place, Sum;
    var c, m := Cycle(weights), |Cycle(weights)|;
    CycleIsFair(weights, server);
    WindowOfCycle(weights, k, m);
    TurnedPicks(c, Place(k, m), server);
    if k > 0 {
      RunIsCyclic(weights, k - 1);
      RunIsCyclic(weights, (k - 1) + m);
      PlaceShift(k - 1, m, m);
    }
  }

  lemma {:induction false} TurnedPicks(c: seq<State>, r: nat, server: nat)
    requires r <= |c|
    ensures Picks(Turned(c, r)[..|c|], server) == Picks(c, server)
  {
    assert Turned(c, r)[..|c|] == c[r..] + c[..r];
    assert c == c[..r] + c[r..];
    PicksOfBoth(c[r..], c[..r], server);
    PicksOfBoth(c[..r], c[r..], server);
  }
}
