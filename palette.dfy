/** The discrete colour table: an escape value is matched against a list of
    inclusive integer ranges, each with a fixed colour; anything outside all
    of them, including every negative value and every value from 1000 on,
    is white. */
module Palette {

  type U8 = x: int | 0 <= x <= 255

  datatype Color = RGB(red: U8, green: U8, blue: U8)

  const Black: Color := RGB(0, 0, 0)
  const White: Color := RGB(255, 255, 255)

  /** The `match` on the escape value, arm by arm and in the same order. */
  function ColorOf(v: int): (c: Color)
    ensures c.red == c.green <= c.blue
    ensures c == Black <==> v == 0
    ensures !(0 <= v <= 999) ==> c == White
  {
    if v == 0 then RGB(0, 0, 0)
    else if v == 1 then RGB(0, 0, 50)
    else if v == 2 then RGB(0, 0, 100)
    else if v == 3 then RGB(0, 0, 150)
    else if v == 4 then RGB(0, 0, 200)
    else if v == 5 then RGB(0, 0, 220)
    else if 6 <= v <= 7 then RGB(0, 0, 255)
    else if 8 <= v <= 9 then RGB(20, 20, 255)
    else if 10 <= v <= 20 then RGB(40, 40, 255)
    else if 21 <= v <= 30 then RGB(70, 70, 255)
    else if 31 <= v <= 50 then RGB(100, 100, 255)
    else if 51 <= v <= 100 then RGB(150, 150, 255)
    else if 101 <= v <= 999 then RGB(200, 200, 255)
    else RGB(255, 255, 255)
  }

  /** One arm of the match other than the wildcard: the inclusive range
      `lo..=hi` and its colour. */
  datatype Arm = Arm(lo: int, hi: int, color: Color)

  /** The arms as a table, independent of the function above. */
  const Arms: seq<Arm> := [
    Arm(0, 0, RGB(0, 0, 0)),
    Arm(1, 1, RGB(0, 0, 50)),
    Arm(2, 2, RGB(0, 0, 100)),
    Arm(3, 3, RGB(0, 0, 150)),
    Arm(4, 4, RGB(0, 0, 200)),
    Arm(5, 5, RGB(0, 0, 220)),
    Arm(6, 7, RGB(0, 0, 255)),
    Arm(8, 9, RGB(20, 20, 255)),
    Arm(10, 20, RGB(40, 40, 255)),
    Arm(21, 30, RGB(70, 70, 255)),
    Arm(31, 50, RGB(100, 100, 255)),
    Arm(51, 100, RGB(150, 150, 255)),
    Arm(101, 999, RGB(200, 200, 255))
  ]

  predicate InArm(v: int, arm: Arm) {
    arm.lo <= v <= arm.hi
  }

  /** The arms are non-empty, in increasing order and pairwise disjoint, and
      together they cover exactly `0..=999` without a gap. */
  lemma ArmsOrderedAndContiguous()
    ensures Arms[0].lo == 0 && Arms[|Arms| - 1].hi == 999
    ensures forall k :: 0 <= k < |Arms| ==> Arms[k].lo <= Arms[k].hi
    ensures forall k :: 0 <= k < |Arms| - 1 ==> Arms[k + 1].lo == Arms[k].hi + 1
  {
  }

  /** Two arms that share a value are the same arm. */
  lemma {:induction false} ArmsDisjoint(v: int, k: nat, k': nat)
    requires k < |Arms| && k' < |Arms| && InArm(v, Arms[k]) && InArm(v, Arms[k'])
    ensures k == k'
  {
    ArmsOrderedAndContiguous();
    if k < k' {
      ArmsIncreasing(k, k');
    } else if k' < k {
      ArmsIncreasing(k', k);
    }
  }

  /** Every value of a later arm exceeds every value of an earlier one. */
  lemma {:induction false} ArmsIncreasing(k: nat, k': nat)
    requires k < k' < |Arms|
    ensures Arms[k].hi < Arms[k'].lo
    decreases k' - k
  {
    ArmsOrderedAndContiguous();
    if k + 1 < k' {
      ArmsIncreasing(k + 1, k');
    }
  }

  /** A value inside an arm gets that arm's colour. */
  lemma ColorOfFollowsArms(v: int, k: nat)
    requires k < |Arms| && InArm(v, Arms[k])
    ensures ColorOf(v) == Arms[k].color
  {
  }

  /** A value lies in some arm exactly when it is in `0..=999`; all other
      values, the budget 1000 among them, fall to the wildcard and are
      white. */
  lemma ColorOfWildcard(v: int)
    ensures (exists k :: 0 <= k < |Arms| && InArm(v, Arms[k])) <==> 0 <= v <= 999
    ensures !(0 <= v <= 999) ==> ColorOf(v) == White
  {
    if 0 <= v <= 999 {
      var k := ArmOf(v);
      assert InArm(v, Arms[k]);
    }
  }

  /** The index of the arm that holds `v`. */
  function ArmOf(v: int): (k: nat)
    requires 0 <= v <= 999
    ensures k < |Arms| && InArm(v, Arms[k])
  {
    if v <= 5 then v
    else if v <= 7 then 6
    else if v <= 9 then 7
    else if v <= 20 then 8
    else if v <= 30 then 9
    else if v <= 50 then 10
    else if v <= 100 then 11
    else 12
  }

  /** For non-negative values every channel grows with the value. */
  lemma ColorOfMonotone(a: int, b: int)
    requires 0 <= a <= b
    ensures ColorOf(a).red <= ColorOf(b).red
    ensures ColorOf(a).green <= ColorOf(b).green
    ensures ColorOf(a).blue <= ColorOf(b).blue
  {
  }
}
