/** Iterating a function: the rho shape of an orbit and the meeting of Floyd's two walks. */
module Orbits {
  import opened NumberTheory

  function Orbit(f: nat -> nat, x: nat, i: nat): nat {
    if i == 0 then x else f(Orbit(f, x, i - 1))
  }

  lemma {:induction false} OrbitAdd(f: nat -> nat, x: nat, i: nat, k: nat)
    ensures Orbit(f, x, i + k) == Orbit(f, Orbit(f, x, i), k)
  {
    if k != 0 { OrbitAdd(f, x, i, k - 1); }
  }

  lemma OrbitBelow(f: nat -> nat, x: nat, p: nat, i: nat)
    requires x < p && forall y: nat :: f(y) < p
    ensures Orbit(f, x, i) < p
  {
  }

  /** An orbit below p repeats: a tail and a cycle of together at most p steps. */
  lemma RhoShape(f: nat -> nat, x: nat, p: nat) returns (tail: nat, cycle: nat)
    requires x < p && forall y: nat :: f(y) < p
    ensures cycle >= 1 && tail + cycle <= p && Orbit(f, x, tail) == Orbit(f, x, tail + cycle)
  {
    var w := (i: nat) => Orbit(f, x, i);
    forall i: nat ensures w(i) < p { OrbitBelow(f, x, p, i); }
    var i, k := Pigeonhole(w, p);
    tail, cycle := i, k - i;
  }

  /** One lap round the cycle changes nothing past the tail. */
  lemma OneLap(f: nat -> nat, x: nat, tail: nat, cycle: nat, i: nat)
    requires Orbit(f, x, tail) == Orbit(f, x, tail + cycle) && tail <= i
    ensures Orbit(f, x, i) == Orbit(f, x, i + cycle)
  {
    OrbitAdd(f, x, tail, i - tail);
    OrbitAdd(f, x, tail + cycle, i - tail);
  }

  lemma {:induction false} Laps(f: nat -> nat, x: nat, tail: nat, cycle: nat, i: nat, laps: nat)
    requires Orbit(f, x, tail) == Orbit(f, x, tail + cycle) && tail <= i
    ensures Orbit(f, x, i) == Orbit(f, x, i + laps * cycle)
  {
    if laps != 0 {
      Laps(f, x, tail, cycle, i, laps - 1);
      var j := i + (laps - 1) * cycle;
      OneLap(f, x, tail, cycle, j);
      assert i + laps * cycle == j + cycle;
    }
  }

  /** The first positive multiple of the cycle that is not in the tail. */
  lemma FirstMultiple(tail: nat, cycle: nat) returns (laps: nat)
    requires cycle >= 1
    ensures 1 <= laps * cycle && tail <= laps * cycle <= tail + cycle
  {
    if tail == 0 {
      laps := 1;
    } else {
      var m := tail + cycle - 1;
      laps := m / cycle;
      assert m == laps * cycle + m % cycle;
    }
  }

  /** Whatever tail and cycle an orbit has, i steps and 2i steps meet for some i up to their sum. */
  lemma FloydMeeting(f: nat -> nat, x: nat, tail: nat, cycle: nat) returns (i: nat)
    requires cycle >= 1 && Orbit(f, x, tail) == Orbit(f, x, tail + cycle)
    ensures 1 <= i <= tail + cycle && Orbit(f, x, i) == Orbit(f, x, 2 * i)
  {
    var laps := FirstMultiple(tail, cycle);
    i := laps * cycle;
    Laps(f, x, tail, cycle, i, laps);
  }
}
