/**
 * The modified additive generator (MAG) of src/generators/mag.py: a feedback
 * shift register of n cells of r bits each, packed into one integer with
 * cell 0 in the lowest r bits. One cycle adds the tapped cells modulo 2^r,
 * applies the modifying function, shifts the register one cell toward cell 0
 * and ORs the result into cell n-1.
 */
module Mag {
  import opened Bits
  import opened Wrappers

  /** The register's shape and feedback: cell width r, cell count n, taps pp, modifying function mf. */
  datatype Config = Config(r: nat, n: nat, pp: seq<nat>, mf: nat -> nat)

  /** Taps as the constructor accepts them: 1 to n entries (repeats allowed), 0 among them, all below n. */
  predicate ValidTaps(pp: seq<nat>, n: nat)
  {
    0 < |pp| <= n && 0 in pp && forall k :: 0 <= k < |pp| ==> pp[k] < n
  }

  predicate ValidConfig(c: Config)
  {
    c.r > 0 && c.n > 0 && ValidTaps(c.pp, c.n)
  }

  /** The modifying function maps r-bit values to r-bit values. */
  ghost predicate MapsCells(mf: nat -> nat, r: nat)
  {
    forall v: nat :: v < Pow2(r) ==> mf(v) < Pow2(r)
  }

  // ---------------------------------------------------------------------
  // Cells of a packed state

  /** The value of cell p: the r bits of the state that start at bit r*p. */
  function Cell(state: nat, r: nat, p: nat): (v: nat)
    ensures v < Pow2(r)
  {
    Shr(state, r * p) % Pow2(r)
  }

  /** The values of the cells at the given positions, in order. */
  function Cells(state: nat, r: nat, ps: seq<nat>): (cs: seq<nat>)
    ensures |cs| == |ps|
  {
    seq(|ps|, k requires 0 <= k < |ps| => Cell(state, r, ps[k]))
  }

  /** The positions 0, 1, ..., n-1. */
  function Positions(n: nat): (ps: seq<nat>)
    ensures |ps| == n && forall i :: 0 <= i < n ==> ps[i] == i
  {
    if n == 0 then [] else Positions(n - 1) + [n - 1]
  }

  /** The sum of the values, added left to right. */
  function Sum(nums: seq<nat>): nat
  {
    if |nums| == 0 then 0 else Sum(nums[..|nums| - 1]) + nums[|nums| - 1]
  }

  /** Σ cells[i] * 2^(r*i): the packed value whose cells these are. */
  function CellsValue(cells: seq<nat>, r: nat): nat
  {
    if |cells| == 0 then 0
    else CellsValue(cells[..|cells| - 1], r) + cells[|cells| - 1] * Pow2(r * (|cells| - 1))
  }

  /** Masking with r ones shifted to bit s and shifting back reads r bits from bit s. */
  lemma CellByMask(state: nat, r: nat, s: nat)
    ensures Shr(And(Shl(Pow2(r) - 1, s), state), s) == Shr(state, s) % Pow2(r)
  {
    var a := And(Pow2(r) - 1, Shr(state, s));
    AndShiftedMask(Pow2(r) - 1, state, s);
    SplitJoin(0, a, s);
    AndLowMask(Shr(state, s), r);
  }

  /** The first m cells of a state recompose its value modulo 2^(r*m). */
  lemma {:induction false} CellsValueLow(state: nat, r: nat, m: nat)
    ensures CellsValue(Cells(state, r, Positions(m)), r) == state % Pow2(r * m)
  {
    if m > 0 {
      var cs := Cells(state, r, Positions(m));
      var j: nat := m - 1;
      CellsValueLow(state, r, j);
      assert cs[..j] == Cells(state, r, Positions(j));
      var p: nat := r * j;
      assert CellsValue(cs, r) == state % Pow2(p) + Cell(state, r, j) * Pow2(p);
      SumOfProduct(r, j);
      Pow2Add(p, r);
      ModNextDigit(state, Pow2(p), Pow2(r));
    }
  }

  lemma ModNextDigit(x: nat, bigP: nat, bigR: nat)
    requires bigP > 0 && bigR > 0
    ensures x % (bigP * bigR) == x % bigP + (x / bigP % bigR) * bigP
  {
    ModMul(x, bigP, bigR);
  }

  lemma SumOfProduct(r: nat, j: nat)
    ensures r * j + r == r * (j + 1)
  {
  }

  lemma SplitProduct(r: nat, k: nat, m: nat)
    requires k < m
    ensures r * k + r + r * (m - k - 1) == r * m
  {
  }

  /** Dividing by A and reducing modulo R ignores added multiples of A * R * C. */
  lemma DivModJoin(lo: nat, v: nat, bigA: nat, bigR: nat, bigC: nat)
    requires bigA > 0 && bigR > 0
    ensures (lo + v * (bigA * bigR * bigC)) / bigA % bigR == lo / bigA % bigR
  {
    var q := lo / bigA;
    DivBounds(lo, bigA);
    var w: nat := v * bigC;
    assert v * (bigA * bigR * bigC) == (w * bigR) * bigA;
    DivModAddMultiple(lo, w * bigR, bigA);
    DivModAddMultiple(q, w, bigR);
  }

  /** Cell k of `state >> r` is cell k + 1 of the state. */
  lemma CellOfShr(state: nat, r: nat, k: nat)
    ensures Cell(Shr(state, r), r, k) == Cell(state, r, k + 1)
  {
    ShrShr(state, r, r * k);
    SumOfProduct(r, k);
  }

  /**
   * Adding v * 2^(r*m) to a value below 2^(r*m) keeps its cells below m and
   * makes cell m the low r bits of v.
   */
  lemma CellOfJoin(lo: nat, v: nat, r: nat, m: nat, k: nat)
    requires lo < Pow2(r * m) && k <= m
    ensures Cell(lo + v * Pow2(r * m), r, k) == if k < m then Cell(lo, r, k) else v % Pow2(r)
  {
    if k == m {
      SplitJoin(lo, v, r * m);
    } else {
      var a: nat := r * k;
      var j: nat := m - k - 1;
      var c: nat := r * j;
      SplitProduct(r, k, m);
      Pow2Add(a, r);
      Pow2Add(a + r, c);
      assert Pow2(r * m) == Pow2(a) * Pow2(r) * Pow2(c);
      DivModJoin(lo, v, Pow2(a), Pow2(r), Pow2(c));
    }
  }

  // ---------------------------------------------------------------------
  // One cycle, as functions of the state

  /** `(state >> r) | (newVal << r*(n-1))`: the shift toward cell 0 with newVal in cell n-1. */
  function Shifted(state: nat, r: nat, n: nat, newVal: nat): nat
    requires n >= 1
  {
    Or(Shr(state, r), Shl(newVal, r * (n - 1)))
  }

  /** The value fed back: mf applied to the sum of the tapped cells modulo 2^r. */
  function Feedback(c: Config, state: nat): nat
  {
    c.mf(Sum(Cells(state, c.r, c.pp)) % Pow2(c.r))
  }

  /** The state after one cycle. */
  function Step(c: Config, state: nat): nat
    requires c.n >= 1
  {
    Shifted(state, c.r, c.n, Feedback(c, state))
  }

  /** The state after k cycles. */
  function Run(c: Config, state: nat, k: nat): nat
    requires c.n >= 1
  {
    if k == 0 then state else Step(c, Run(c, state, k - 1))
  }

  /** Or-ing into the emptied top cell is addition when the state fits in n*r bits. */
  lemma ShiftedValue(state: nat, r: nat, n: nat, v: nat)
    requires n >= 1 && state < Pow2(n * r)
    ensures Shr(state, r) < Pow2(r * (n - 1))
    ensures Shifted(state, r, n, v) == Shr(state, r) + v * Pow2(r * (n - 1))
  {
    assert r + r * (n - 1) == n * r;
    ShrBelow(state, r, r * (n - 1));
    OrDisjoint(Shr(state, r), v, r * (n - 1));
  }

  lemma JoinBelow(lo: nat, v: nat, bigP: nat, bigR: nat)
    requires lo < bigP && v < bigR
    ensures lo + v * bigP < bigP * bigR
  {
    MulLe(v, bigR - 1, bigP);
  }

  /**
   * The shift moves cell k+1 to cell k and puts the low r bits of v in cell n-1;
   * the state stays below 2^(n*r) when v has at most r bits (the source does not mask v).
   */
  lemma ShiftedCells(state: nat, r: nat, n: nat, v: nat)
    requires n >= 1 && state < Pow2(n * r)
    ensures forall k :: 0 <= k < n - 1 ==> Cell(Shifted(state, r, n, v), r, k) == Cell(state, r, k + 1)
    ensures Cell(Shifted(state, r, n, v), r, n - 1) == v % Pow2(r)
    ensures v < Pow2(r) ==> Shifted(state, r, n, v) < Pow2(n * r)
  {
    forall k | 0 <= k < n - 1
      ensures Cell(Shifted(state, r, n, v), r, k) == Cell(state, r, k + 1)
    {
      ShiftedLowCell(state, r, n, v, k);
    }
    ShiftedTopCell(state, r, n, v);
    if v < Pow2(r) {
      ShiftedBelow(state, r, n, v);
    }
  }

  /** Below the top, the shift moves cell k+1 to cell k. */
  lemma ShiftedLowCell(state: nat, r: nat, n: nat, v: nat, k: nat)
    requires n >= 1 && state < Pow2(n * r) && k < n - 1
    ensures Cell(Shifted(state, r, n, v), r, k) == Cell(state, r, k + 1)
  {
    ShiftedValue(state, r, n, v);
    CellOfJoin(Shr(state, r), v, r, n - 1, k);
    CellOfShr(state, r, k);
  }

  /** The top cell receives the low r bits of v. */
  lemma ShiftedTopCell(state: nat, r: nat, n: nat, v: nat)
    requires n >= 1 && state < Pow2(n * r)
    ensures Cell(Shifted(state, r, n, v), r, n - 1) == v % Pow2(r)
  {
    ShiftedValue(state, r, n, v);
    CellOfJoin(Shr(state, r), v, r, n - 1, n - 1);
  }

  lemma ShiftedBelow(state: nat, r: nat, n: nat, v: nat)
    requires n >= 1 && state < Pow2(n * r) && v < Pow2(r)
    ensures Shifted(state, r, n, v) < Pow2(n * r)
  {
    var j: nat := n - 1;
    var p: nat := r * j;
    ShiftedValue(state, r, n, v);
    SumOfProduct(r, j);
    Pow2Add(p, r);
    JoinBelow(Shr(state, r), v, Pow2(p), Pow2(r));
  }

  /**
   * One cycle: cells 1..n-1 move down one place and cell n-1 receives the
   * feedback value; with a modifying function that keeps r bits, the state
   * stays below 2^(n*r).
   */
  lemma StepCells(c: Config, state: nat)
    requires ValidConfig(c) && state < Pow2(c.n * c.r)
    ensures forall k :: 0 <= k < c.n - 1 ==> Cell(Step(c, state), c.r, k) == Cell(state, c.r, k + 1)
    ensures Cell(Step(c, state), c.r, c.n - 1) == Feedback(c, state) % Pow2(c.r)
    ensures MapsCells(c.mf, c.r) ==> Step(c, state) < Pow2(c.n * c.r)
    ensures MapsCells(c.mf, c.r) ==> Cell(Step(c, state), c.r, c.n - 1) == Feedback(c, state)
  {
    ShiftedCells(state, c.r, c.n, Feedback(c, state));
    if MapsCells(c.mf, c.r) {
      ModOfSmall(Feedback(c, state), Pow2(c.r));
    }
  }

  /** Closure: any number of cycles keeps the state below 2^(n*r). */
  lemma {:induction false} RunBelow(c: Config, state: nat, k: nat)
    requires ValidConfig(c) && MapsCells(c.mf, c.r) && state < Pow2(c.n * c.r)
    ensures Run(c, state, k) < Pow2(c.n * c.r)
  {
    if k > 0 {
      RunBelow(c, state, k - 1);
      StepCells(c, Run(c, state, k - 1));
    }
  }

  // ---------------------------------------------------------------------
  // Construction checks

  datatype ConfigError =
    | CellWidthNotPositive
    | CellCountNotPositive
    | TapCountOutOfRange
    | TapZeroMissing
    | TapOutOfRange
    | NegativeInitState
    | InitStateTooWide

  /** The constructor's checks, in the order it makes them; None when it accepts. */
  function Validate(r: int, n: int, pp: seq<int>, initState: int): Option<ConfigError>
  {
    if r <= 0 then Some(CellWidthNotPositive)
    else if n <= 0 then Some(CellCountNotPositive)
    else if |pp| <= 0 || |pp| > n then Some(TapCountOutOfRange)
    else if 0 !in pp then Some(TapZeroMissing)
    else if exists p :: p in pp && !(0 <= p < n) then Some(TapOutOfRange)
    else if initState < 0 then Some(NegativeInitState)
    else if initState != 0 && BitsNumber(initState) > n * r then Some(InitStateTooWide)
    else None
  }

  /**
   * The constructor accepts exactly: r > 0, n > 0, 1..n taps containing 0
   * and all in [0, n-1], and 0 <= init_state < 2^(n*r).
   */
  lemma ValidateAccepts(r: int, n: int, pp: seq<int>, initState: int)
    ensures Validate(r, n, pp, initState) == None <==>
      r > 0 && n > 0 && 0 < |pp| <= n && 0 in pp &&
      (forall p :: p in pp ==> 0 <= p < n) &&
      0 <= initState && (r > 0 && n > 0 ==> initState < Pow2(n * r))
  {
    if r > 0 && n > 0 && initState > 0 {
      BitsNumberExceeds(initState, n * r);
    }
  }

  function NatAt(pp: seq<int>, k: nat): (p: nat)
    requires k < |pp| && forall p :: p in pp ==> 0 <= p
    ensures p == pp[k]
  {
    assert pp[k] in pp;
    pp[k]
  }

  /** Taps that pass the checks, as naturals. */
  function TapsOf(pp: seq<int>): (taps: seq<nat>)
    requires forall p :: p in pp ==> 0 <= p
    ensures |taps| == |pp| && forall k :: 0 <= k < |pp| ==> taps[k] == pp[k]
  {
    seq(|pp|, k requires 0 <= k < |pp| => NatAt(pp, k))
  }

  // ---------------------------------------------------------------------
  // The module-level helpers, as the source writes them

  /** nums_add_mod: the sum of a non-empty list modulo 2^r. */
  method NumsAddMod(nums: seq<nat>, r: nat) returns (v: nat)
    requires |nums| > 0
    ensures v == Sum(nums) % Pow2(r)
  {
    var ret := nums[0];
    assert nums[..1][..0] == [];
    for i := 1 to |nums|
      invariant ret == Sum(nums[..i])
    {
      assert nums[..i + 1][..i] == nums[..i];
      ret := ret + nums[i];
    }
    assert nums[..|nums|] == nums;
    AndLowMask(ret, r);
    v := And(ret, Pow2(r) - 1);
  }

  /** form_nums_list: the value of each listed cell, read by shift and mask. */
  method FormNumsList(state: nat, r: nat, pickupList: seq<nat>) returns (ret: seq<nat>)
    ensures |ret| == |pickupList|
    ensures forall k :: 0 <= k < |ret| ==> ret[k] == Shr(state, r * pickupList[k]) % Pow2(r)
  {
    var andMask := Pow2(r) - 1;
    ret := [];
    for k := 0 to |pickupList|
      invariant |ret| == k
      invariant forall j :: 0 <= j < k ==> ret[j] == Shr(state, r * pickupList[j]) % Pow2(r)
    {
      var shift := r * pickupList[k];
      var pointVal := Shr(And(Shl(andMask, shift), state), shift);
      CellByMask(state, r, shift);
      ret := ret + [pointVal];
    }
  }

  // ---------------------------------------------------------------------
  // The generator object

  class MAG {
    const r: nat
    const n: nat
    const pp: seq<nat>
    const mf: nat -> nat
    var state: nat

    function Cfg(): Config
    {
      Config(r, n, pp, mf)
    }

    /** What the constructor checked; the fields it covers never change. */
    predicate Valid()
    {
      ValidConfig(Cfg())
    }

    /** The state fits in its n cells. */
    ghost predicate Bounded()
      reads this
    {
      state < Pow2(n * r)
    }

    constructor (r: nat, n: nat, pp: seq<nat>, mf: nat -> nat, initState: nat)
      requires ValidConfig(Config(r, n, pp, mf)) && initState < Pow2(n * r)
      ensures this.r == r && this.n == n && this.pp == pp && this.mf == mf
      ensures state == initState && Valid() && Bounded()
    {
      this.r, this.n, this.pp, this.mf := r, n, pp, mf;
      state := initState;
    }

    /** MAG(r, n, pickup_points, modifying_func, init_state): the checks, then the object. */
    static method Create(r: int, n: int, pickupPoints: seq<int>, mf: nat -> nat, initState: int)
      returns (res: Result<MAG, ConfigError>)
      ensures Validate(r, n, pickupPoints, initState).Some? ==>
        res == Failure(Validate(r, n, pickupPoints, initState).value)
      ensures Validate(r, n, pickupPoints, initState).None? ==>
        res.Success? && fresh(res.value) && res.value.Valid() && res.value.Bounded() &&
        res.value.r == r && res.value.n == n && res.value.pp == pickupPoints &&
        res.value.mf == mf && res.value.state == initState
    {
      var check := Validate(r, n, pickupPoints, initState);
      if check.Some? {
        return Failure(check.value);
      }
      ValidateAccepts(r, n, pickupPoints, initState);
      var taps := TapsOf(pickupPoints);
      assert forall k :: 0 <= k < |taps| ==> taps[k] < n by {
        forall k | 0 <= k < |taps| ensures taps[k] < n {
          assert pickupPoints[k] in pickupPoints;
        }
      }
      var g := new MAG(r, n, taps, mf, initState);
      return Success(g);
    }

    /** form_pp_nums: the values of the tapped cells. */
    method FormPpNums() returns (nums: seq<nat>)
      ensures nums == Cells(state, r, pp)
    {
      nums := FormNumsList(state, r, pp);
    }

    /** do_shift: shift toward cell 0 and OR newVal into cell n-1. */
    method DoShift(newVal: nat)
      requires Valid()
      modifies this
      ensures state == Shifted(old(state), r, n, newVal)
    {
      state := Shr(state, r);
      state := Or(state, Shl(newVal, r * (n - 1)));
    }

    /** do_cycle: one cycle of the generator. */
    method DoCycle()
      requires Valid()
      modifies this
      ensures state == Step(Cfg(), old(state))
      ensures old(Bounded()) && MapsCells(mf, r) ==> Bounded()
    {
      var ppNums := FormPpNums();
      var addedNums := NumsAddMod(ppNums, r);
      var modifiedVal := mf(addedNums);
      DoShift(modifiedVal);
      if old(Bounded()) {
        StepCells(Cfg(), old(state));
      }
    }

    method GetCurrentStateVal() returns (v: nat)
      ensures v == state
    {
      v := state;
    }

    /** get_current_output_val: the value of cell 0, the generator's output. */
    method GetCurrentOutputVal() returns (v: nat)
      ensures v == state % Pow2(r) && v == Cell(state, r, 0)
    {
      var cells := FormNumsList(state, r, [0]);
      v := cells[0];
    }

    /** get_current_state: the n cell values, which recompose the state modulo 2^(n*r). */
    method GetCurrentState() returns (cells: seq<nat>)
      ensures |cells| == n
      ensures forall i :: 0 <= i < n ==> cells[i] == Cell(state, r, i)
      ensures CellsValue(cells, r) == state % Pow2(n * r)
      ensures Bounded() ==> CellsValue(cells, r) == state
    {
      cells := FormNumsList(state, r, Positions(n));
      assert cells == Cells(state, r, Positions(n));
      CellsValueLow(state, r, n);
      assert r * n == n * r;
      if Bounded() {
        ModOfSmall(state, Pow2(n * r));
      }
    }

    /** __next__: one cycle, then (output cell, whole state). */
    method Next() returns (output: nat, snapshot: nat)
      requires Valid()
      modifies this
      ensures state == Step(Cfg(), old(state))
      ensures output == Cell(state, r, 0) && snapshot == state
    {
      DoCycle();
      output := GetCurrentOutputVal();
      snapshot := GetCurrentStateVal();
    }

    /** do_idling: n cycles for 0, k cycles for k > 0; a negative count is refused. */
    method DoIdling(idlingRounds: int) returns (ok: bool)
      requires Valid()
      modifies this
      ensures ok <==> idlingRounds >= 0
      ensures !ok ==> state == old(state)
      ensures ok ==> state == Run(Cfg(), old(state), if idlingRounds == 0 then n else idlingRounds)
    {
      if idlingRounds < 0 {
        return false;
      }
      var rounds: nat := if idlingRounds == 0 then n else idlingRounds;
      for i := 0 to rounds
        invariant state == Run(Cfg(), old(state), i)
      {
        var _, _ := Next();
      }
      return true;
    }
  }
}
