/** Apportionment in the turn loop of `allmain.c`: movement over random rolls, energy over sixteen turns. */
module Turns {

  const NORMAL_SPEED: nat := 12
  const INCREMENT: nat := NORMAL_SPEED / 3

  // ---------------------------------------------------------------- movement

  /** What `you_move_amount` grants before its fallback, for a roll below `INCREMENT`. */
  function Amount(speed: nat, roll: nat): nat {
    if speed > INCREMENT then INCREMENT + Amount(speed - INCREMENT, roll)
    else if speed > roll then INCREMENT
    else 0
  }

  /** Over the equally likely rolls, the amounts add up to the speed, once for each roll. */
  lemma {:induction false} RollsLoseNothing(speed: nat)
    ensures Amount(speed, 0) + Amount(speed, 1) + Amount(speed, 2) + Amount(speed, 3) == 4 * speed
  {
    if speed > INCREMENT {
      RollsLoseNothing(speed - INCREMENT);
    }
  }

  /**
   A single roll grants whole actions: a multiple of 4 less than 4 away from the speed, rounded up for the rolls below
   what is left over.  A greater roll never grants more.
   */
  lemma {:induction false} AmountExactly(speed: nat, roll: nat)
    requires roll < 4
    ensures Amount(speed, roll) % 4 == 0 && speed - 4 < Amount(speed, roll) < speed + 4
    ensures Amount(speed, roll) == if roll < speed % 4 then speed - speed % 4 + 4 else speed - speed % 4
  {
    if speed > INCREMENT {
      AmountExactly(speed - 4, roll);
      FourLess(speed);
    }
  }

  lemma FourLess(speed: nat)
    requires speed > 4
    ensures (speed - 4) % 4 == speed % 4
  {
  }

  /** `you_move_amount`; a hero who would be stuck gets one point every twelfth turn. */
  method YouMoveAmount(youSpeed: nat, roll: nat, moves: nat) returns (amt: nat)
    requires roll < INCREMENT
    ensures amt == if Amount(youSpeed, roll) == 0 && moves % 12 == 0 then 1 else Amount(youSpeed, roll)
    ensures amt == 0 <==> youSpeed <= roll && moves % 12 != 0
    ensures amt == 1 || (amt % 4 == 0 && youSpeed - 4 < amt < youSpeed + 4)
  {
    AmountExactly(youSpeed, roll);
    amt := 0;
    var speed: nat := youSpeed;
    while speed > INCREMENT
      invariant amt + Amount(speed, roll) == Amount(youSpeed, roll)
    {
      amt := amt + INCREMENT;
      speed := speed - INCREMENT;
    }
    if speed > roll {
      amt := amt + INCREMENT;
    }
    if amt < 1 && moves % 12 == 0 {
      amt := 1;
    }
  }

  // ---------------------------------------------------------------- energy

  /** The place of a turn in the sixteen-turn cycle. */
  function Place(moves: nat): (r: nat)
    ensures 1 <= r <= 16
  {
    var m := moves % 16;
    if m == 1 then 1 else if m == 9 then 2 else if m == 5 then 3 else if m == 13 then 4
    else if m == 3 then 5 else if m == 11 then 6 else if m == 7 then 7 else if m == 15 then 8
    else if m == 2 then 9 else if m == 10 then 10 else if m == 6 then 11 else if m == 14 then 12
    else if m == 4 then 13 else if m == 12 then 14 else if m == 8 then 15 else 16
  }

  /**
   The turns of a cycle take their places in the order of their bits read backwards, counted from turn 1.  That
   spreads the places: the first 2, 4 or 8 of them are 8, 4 or 2 turns apart.
   */
  lemma PlaceIsReversed(moves: nat, a: nat, b: nat, c: nat, d: nat)
    requires a < 2 && b < 2 && c < 2 && d < 2 && (moves + 15) % 16 == a + 2 * b + 4 * c + 8 * d
    ensures Place(moves) == 1 + 8 * a + 4 * b + 2 * c + d
    ensures Place(moves) <= 2 <==> moves % 8 == 1
    ensures Place(moves) <= 4 <==> moves % 4 == 1
    ensures Place(moves) <= 8 <==> moves % 2 == 1
  {
    Remainders(moves);
    PlaceOfBits(moves, moves % 16, a, b, c, d);
  }

  lemma PlaceOfBits(moves: nat, m: nat, a: nat, b: nat, c: nat, d: nat)
    requires a < 2 && b < 2 && c < 2 && d < 2 && m == moves % 16
    requires (if m == 0 then 15 else m - 1) == a + 2 * b + 4 * c + 8 * d
    ensures Place(moves) == 1 + 8 * a + 4 * b + 2 * c + d
    ensures Place(moves) <= 2 <==> m == 1 || m == 9
    ensures Place(moves) <= 4 <==> m == 1 || m == 5 || m == 9 || m == 13
    ensures Place(moves) <= 8 <==> m == 1 || m == 3 || m == 5 || m == 7 || m == 9 || m == 11 || m == 13 || m == 15
  {
  }

  lemma Remainders(moves: nat)
    ensures var m := moves % 16;
            && (moves + 15) % 16 == (if m == 0 then 15 else m - 1)
            && (moves % 8 == 1 <==> m == 1 || m == 9)
            && (moves % 4 == 1 <==> m == 1 || m == 5 || m == 9 || m == 13)
            && (moves % 2 == 1 <==>
                m == 1 || m == 3 || m == 5 || m == 7 || m == 9 || m == 11 || m == 13 || m == 15)
  {
    var q, m := moves / 16, moves % 16;
    assert moves == 16 * q + m;
    OfEight(moves, if m < 8 then 2 * q else 2 * q + 1);
    OfFour(moves, if m < 4 then 4 * q else if m < 8 then 4 * q + 1 else if m < 12 then 4 * q + 2 else 4 * q + 3);
    var half := if m < 2 then 0 else if m < 4 then 1 else if m < 6 then 2 else if m < 8 then 3
      else if m < 10 then 4 else if m < 12 then 5 else if m < 14 then 6 else 7;
    OfTwo(moves, 8 * q + half);
    OfSixteen(moves + 15, if m == 0 then q else q + 1);
  }

  lemma OfSixteen(n: nat, q: nat)
    requires 16 * q <= n < 16 * q + 16
    ensures n % 16 == n - 16 * q
  {
  }

  lemma OfEight(n: nat, q: nat)
    requires 8 * q <= n < 8 * q + 8
    ensures n % 8 == n - 8 * q
  {
  }

  lemma OfFour(n: nat, q: nat)
    requires 4 * q <= n < 4 * q + 4
    ensures n % 4 == n - 4 * q
  {
  }

  lemma OfTwo(n: nat, q: nat)
    requires 2 * q <= n < 2 * q + 2
    ensures n % 2 == n - 2 * q
  {
  }

  /** The energy of one turn, before it is capped. */
  function Added(perCycle: nat, moves: nat): nat {
    perCycle / 16 + (if Place(moves) <= perCycle - perCycle / 16 * 16 then 1 else 0)
  }

  /** The energy of `n` consecutive turns. */
  function Sum(perCycle: nat, start: nat, n: nat): nat {
    if n == 0 then 0 else Sum(perCycle, start, n - 1) + Added(perCycle, start + n - 1)
  }

  /** The table is a permutation: different turns of a cycle have different places. */
  lemma PlacesDiffer(a: nat, b: nat)
    requires a % 16 != b % 16
    ensures Place(a) != Place(b)
  {
  }

  lemma {:induction false} SumShift(perCycle: nat, start: nat, n: nat)
    ensures Sum(perCycle, start + 1, n) + Added(perCycle, start) == Sum(perCycle, start, n) + Added(perCycle, start + n)
  {
    if n > 0 {
      SumShift(perCycle, start, n - 1);
    }
  }

  lemma Periodic(perCycle: nat, moves: nat)
    ensures Added(perCycle, moves + 16) == Added(perCycle, moves)
  {
    assert (moves + 16) % 16 == moves % 16;
  }

  /** How many of the first `n` places get an extra point. */
  function Extra(rest: nat, start: nat, n: nat): nat {
    if n == 0 then 0 else Extra(rest, start, n - 1) + (if Place(start + n - 1) <= rest then 1 else 0)
  }

  lemma OneMore(q: nat, n: nat)
    requires n > 0
    ensures q * n == q * (n - 1) + q
  {
  }

  lemma {:induction false} SumIsExtra(perCycle: nat, start: nat, n: nat)
    ensures Sum(perCycle, start, n) == perCycle / 16 * n + Extra(perCycle - perCycle / 16 * 16, start, n)
  {
    hide Place;
    if n > 0 {
      SumIsExtra(perCycle, start, n - 1);
      OneMore(perCycle / 16, n);
    }
  }

  lemma ExtraStep(rest: nat, n: nat)
    ensures Extra(rest, 0, n + 1) == Extra(rest, 0, n) + (if Place(n) <= rest then 1 else 0)
  {
    hide Place;
  }

  lemma Table()
    ensures Place(1) == 1 && Place(9) == 2 && Place(5) == 3 && Place(13) == 4 && Place(3) == 5 && Place(11) == 6 &&
              Place(7) == 7 && Place(15) == 8
    ensures Place(2) == 9 && Place(10) == 10 && Place(6) == 11 && Place(14) == 12 && Place(4) == 13 &&
              Place(12) == 14 && Place(8) == 15 && Place(0) == 16
  {
  }

  lemma FirstCycle(rest: nat)
    requires rest < 16
    ensures Extra(rest, 0, 16) == rest
  {
    hide Place, Extra;
    Table();
    NoExtra(rest);
    ExtraStep(rest, 0);
    ExtraStep(rest, 1);
    ExtraStep(rest, 2);
    ExtraStep(rest, 3);
    ExtraStep(rest, 4);
    ExtraStep(rest, 5);
    ExtraStep(rest, 6);
    ExtraStep(rest, 7);
    ExtraStep(rest, 8);
    ExtraStep(rest, 9);
    ExtraStep(rest, 10);
    ExtraStep(rest, 11);
    ExtraStep(rest, 12);
    ExtraStep(rest, 13);
    ExtraStep(rest, 14);
    ExtraStep(rest, 15);
  }

  lemma NoExtra(rest: nat)
    ensures Extra(rest, 0, 0) == 0
  {
  }

  /** Any sixteen consecutive turns add exactly the energy of a cycle. */
  lemma {:induction false} CycleLosesNothing(perCycle: nat, start: nat)
    ensures Sum(perCycle, start, 16) == perCycle
  {
    if start == 0 {
      SumIsExtra(perCycle, 0, 16);
      FirstCycle(perCycle - perCycle / 16 * 16);
    } else {
      CycleLosesNothing(perCycle, start - 1);
      SumShift(perCycle, start - 1, 16);
      Periodic(perCycle, start - 1);
    }
  }

  class Hero {
    var uen: nat
    var uenmax: nat

    constructor (uen: nat, uenmax: nat)
      requires uen <= uenmax
      ensures this.uen == uen && this.uenmax == uenmax
    {
      this.uen, this.uenmax := uen, uenmax;
    }

    /** The energy step of `you_moved`, when nothing keeps the hero from regenerating. */
    method Regenerate(perCycle: nat, moves: nat)
      requires uen <= uenmax
      modifies this`uen
      ensures uen == Regenerated(old(uen), uenmax, perCycle, moves, 1) && uen <= uenmax
    {
      if uen < uenmax {
        var addpw := perCycle / 16;
        if Place(moves) <= perCycle - addpw * 16 {
          addpw := addpw + 1;
        }
        uen := uen + addpw;
        if uen > uenmax {
          uen := uenmax;
        }
      }
      assert Sum(perCycle, moves, 1) == Sum(perCycle, moves, 0) + Added(perCycle, moves);
    }

    /** Sixteen consecutive turns restore the energy of a cycle, up to the maximum. */
    method RegenerateCycle(perCycle: nat, start: nat)
      requires uen <= uenmax
      modifies this`uen
      ensures uen == if old(uen) + perCycle <= uenmax then old(uen) + perCycle else uenmax
    {
      var i := 0;
      ghost var before := uen;
      while i < 16
        invariant 0 <= i <= 16 && uen <= uenmax && uen == Regenerated(before, uenmax, perCycle, start, i)
      {
        Regenerate(perCycle, start + i);
        assert Sum(perCycle, start + i, 1) == Sum(perCycle, start + i, 0) + Added(perCycle, start + i);
        i := i + 1;
      }
      CycleLosesNothing(perCycle, start);
    }
  }

  /** The energy after `n` turns: what they add, capped once. */
  function Regenerated(uen: nat, uenmax: nat, perCycle: nat, start: nat, n: nat): nat {
    if uen + Sum(perCycle, start, n) <= uenmax then uen + Sum(perCycle, start, n) else uenmax
  }
}
