/**
 * The empirical perfection test (src/perfection_properties/perfection_check.py):
 * for every input bit i and every sample x, two registers are started from the
 * neighbours of x that differ only in bit i and advanced in lock-step; a round
 * is perfect when, for every i, the XORs of the paired states, OR-ed over the
 * samples, have every one of the n*r state bits set.
 */
module PerfectionCheck {
  import opened Bits
  import opened Wrappers
  import opened Mag
  import Speck

  // ---------------------------------------------------------------------
  // gen_random_samples

  /**
   * `gen_random_samples(n, num)`: num draws of `randint(0, 2^n - 1)`. The
   * random source is the parameter draw, whose k-th value stands for the
   * k-th draw; it must stay in the range randint promises.
   */
  method GenRandomSamples(n: nat, num: int, draw: nat -> nat) returns (samples: seq<nat>)
    requires forall k :: 0 <= k < num ==> draw(k) <= Pow2(n) - 1
    ensures |samples| == if num < 0 then 0 else num
    ensures forall k :: 0 <= k < |samples| ==> samples[k] == draw(k) && samples[k] < Pow2(n)
  {
    samples := [];
    var max := Pow2(n) - 1;
    var k := 0;
    while k < num
      invariant 0 <= k && (num >= 0 ==> k <= num) && (num < 0 ==> k == 0)
      invariant |samples| == k
      invariant forall k' :: 0 <= k' < k ==> samples[k'] == draw(k') && samples[k'] <= max
    {
      samples := samples + [draw(k)];
      k := k + 1;
    }
  }

  // ---------------------------------------------------------------------
  // get_neighbor_numbers

  /** `get_neighbor_numbers(x, i)`: x with bit i set, then that value with bit i flipped back off. */
  function NeighborNumbers(x: nat, i: nat): (p: (nat, nat))
  {
    var first := Or(x, Pow2(i));
    (first, Xor(first, Pow2(i)))
  }

  /**
   * The first neighbour has bit i set and the second has it clear; both agree
   * with x on every other bit, so they differ exactly in bit i and x is one
   * of them.
   */
  lemma NeighborBits(x: nat, i: nat)
    ensures var p := NeighborNumbers(x, i);
      Bit(p.0, i) == 1 && Bit(p.1, i) == 0 &&
      (forall j: nat :: j != i ==> Bit(p.0, j) == Bit(x, j) && Bit(p.1, j) == Bit(x, j)) &&
      Xor(p.0, p.1) == Pow2(i) &&
      (Bit(x, i) == 1 ==> x == p.0) && (Bit(x, i) == 0 ==> x == p.1)
  {
    var p := NeighborNumbers(x, i);
    forall j: nat ensures Bit(p.0, j) == (if j == i then 1 else Bit(x, j)) &&
                          Bit(p.1, j) == (if j == i then 0 else Bit(x, j)) {
      BitOr(x, Pow2(i), j);
      BitPow2(i, j);
      BitXor(p.0, Pow2(i), j);
    }
    forall j: nat ensures Bit(Xor(p.0, p.1), j) == Bit(Pow2(i), j) {
      BitXor(p.0, p.1, j);
      BitPow2(i, j);
    }
    BitsEqual(Xor(p.0, p.1), Pow2(i));
    if Bit(x, i) == 1 {
      BitsEqual(x, p.0);
    } else {
      BitsEqual(x, p.1);
    }
  }

  /** Neighbours of an m-bit value by a bit below m are m-bit values. */
  lemma NeighborsBelow(x: nat, i: nat, m: nat)
    requires x < Pow2(m) && i < m
    ensures NeighborNumbers(x, i).0 < Pow2(m) && NeighborNumbers(x, i).1 < Pow2(m)
  {
    Pow2Strict(i, m);
    OrBelow(x, Pow2(i), m);
    XorBelow(Or(x, Pow2(i)), Pow2(i), m);
  }

  // ---------------------------------------------------------------------
  // check_current_round

  /** The OR, over the first count pairs, of first XOR second. */
  function Accumulated(row: seq<(nat, nat)>, count: nat): nat
    requires count <= |row|
  {
    if count == 0 then 0 else Or(Accumulated(row, count - 1), Xor(row[count - 1].0, row[count - 1].1))
  }

  /** States as check_current_round indexes them: n rows of at least samplesNum pairs. */
  predicate StatesShape(n: int, samplesNum: int, states: seq<seq<(nat, nat)>>)
  {
    n <= |states| && forall i :: 0 <= i < n ==> samplesNum <= |states[i]|
  }

  /** The number of samples the scan visits: `range(samples_num)` is empty below 0. */
  function Visited(samplesNum: int): nat
  {
    if samplesNum < 0 then 0 else samplesNum
  }

  /** check_current_round's answer: for every bit i below n the accumulated XORs are 2^n - 1. */
  predicate RoundPerfect(n: int, samplesNum: int, states: seq<seq<(nat, nat)>>)
    requires StatesShape(n, samplesNum, states)
  {
    n <= 0 || forall i :: 0 <= i < n ==> Accumulated(states[i], Visited(samplesNum)) == Pow2(n) - 1
  }

  /** `check_current_round(n, samples_num, states)`, the loops as written. */
  method CheckCurrentRound(n: int, samplesNum: int, states: seq<seq<(nat, nat)>>) returns (perfect: bool)
    requires StatesShape(n, samplesNum, states)
    ensures perfect == RoundPerfect(n, samplesNum, states)
  {
    if n <= 0 {
      return true;
    }
    var resultedVect := Pow2(n) - 1;
    var count := Visited(samplesNum);
    var i := 0;
    while i < n
      invariant 0 <= i <= n
      invariant forall i' :: 0 <= i' < i ==> Accumulated(states[i'], count) == resultedVect
    {
      var iResultedVect := 0;
      var sampleNum := 0;
      while sampleNum < samplesNum
        invariant 0 <= sampleNum <= count
        invariant iResultedVect == Accumulated(states[i], sampleNum)
      {
        var (first, second) := states[i][sampleNum];
        iResultedVect := Or(iResultedVect, Xor(first, second));
        sampleNum := sampleNum + 1;
      }
      if iResultedVect != resultedVect {
        return false;
      }
      i := i + 1;
    }
    return true;
  }

  /** Some visited pair differs in bit b. */
  predicate Flipped(row: seq<(nat, nat)>, count: nat, b: nat)
    requires count <= |row|
  {
    exists j :: 0 <= j < count && Bit(row[j].0, b) != Bit(row[j].1, b)
  }

  /** Bit b of the accumulator is set exactly when some visited pair differs in bit b. */
  lemma {:induction false} AccumulatedBit(row: seq<(nat, nat)>, count: nat, b: nat)
    requires count <= |row|
    ensures Bit(Accumulated(row, count), b) == 1 <==> Flipped(row, count, b)
  {
    if count == 0 {
      BitOfZero(b);
    } else {
      AccumulatedBit(row, count - 1, b);
      var last := row[count - 1];
      BitOr(Accumulated(row, count - 1), Xor(last.0, last.1), b);
      BitXor(last.0, last.1, b);
      if Flipped(row, count, b) && !Flipped(row, count - 1, b) {
        var j :| 0 <= j < count && Bit(row[j].0, b) != Bit(row[j].1, b);
        assert j == count - 1;
      }
    }
  }

  /** The accumulator of n-bit pairs is an n-bit value. */
  lemma {:induction false} AccumulatedBelow(row: seq<(nat, nat)>, count: nat, n: nat)
    requires count <= |row|
    requires forall j :: 0 <= j < count ==> row[j].0 < Pow2(n) && row[j].1 < Pow2(n)
    ensures Accumulated(row, count) < Pow2(n)
  {
    if count > 0 {
      AccumulatedBelow(row, count - 1, n);
      XorBelow(row[count - 1].0, row[count - 1].1, n);
      OrBelow(Accumulated(row, count - 1), Xor(row[count - 1].0, row[count - 1].1), n);
    }
  }

  /**
   * For n-bit states the test on one row is what it is meant to detect: every
   * one of the n output bits is flipped by flipping the input bit, for at
   * least one of the visited samples.
   */
  lemma RowCoveredMeaning(row: seq<(nat, nat)>, count: nat, n: nat)
    requires count <= |row|
    requires forall j :: 0 <= j < count ==> row[j].0 < Pow2(n) && row[j].1 < Pow2(n)
    ensures Accumulated(row, count) == Pow2(n) - 1 <==> forall b :: 0 <= b < n ==> Flipped(row, count, b)
  {
    var acc := Accumulated(row, count);
    if acc == Pow2(n) - 1 {
      forall b | 0 <= b < n ensures Flipped(row, count, b) {
        AccumulatedBit(row, count, b);
        BitLowMask(n, b);
      }
    }
    if forall b :: 0 <= b < n ==> Flipped(row, count, b) {
      AccumulatedBelow(row, count, n);
      forall b: nat ensures Bit(acc, b) == Bit(Pow2(n) - 1, b) {
        BitLowMask(n, b);
        if b < n {
          AccumulatedBit(row, count, b);
        } else {
          BitAbove(acc, n, b);
        }
      }
      BitsEqual(acc, Pow2(n) - 1);
    }
  }

  /** With no samples no width of at least one bit is ever perfect. */
  lemma NoSamplesNotPerfect(n: int, samplesNum: int, states: seq<seq<(nat, nat)>>)
    requires StatesShape(n, samplesNum, states) && n >= 1 && samplesNum <= 0
    ensures !RoundPerfect(n, samplesNum, states)
  {
    assert Accumulated(states[0], Visited(samplesNum)) == 0;
  }

  // ---------------------------------------------------------------------
  // get_GEN_class_generators

  /** The two registers started from the neighbours of one sample by one bit. */
  datatype GenPair = GenPair(first: MAG, second: MAG)

  /** The registers of one pair. */
  function Objs(p: GenPair): set<object>
  {
    {p.first, p.second}
  }

  /** Every register the generator lists hold. */
  function Footprint(gens: seq<seq<GenPair>>): set<object>
  {
    set i, j, o | 0 <= i < |gens| && 0 <= j < |gens[i]| && o in Objs(gens[i][j]) :: o
  }

  /** The registers of each pair belong to the footprint. */
  lemma InFootprint(gens: seq<seq<GenPair>>, i: nat, j: nat)
    requires i < |gens| && j < |gens[i]|
    ensures gens[i][j].first in Footprint(gens) && gens[i][j].second in Footprint(gens)
  {
    assert gens[i][j].first in Objs(gens[i][j]) && gens[i][j].second in Objs(gens[i][j]);
  }

  /** No register appears in two places, so advancing one leaves every other as it was. */
  predicate Separate(gens: seq<seq<GenPair>>)
  {
    (forall i, j :: 0 <= i < |gens| && 0 <= j < |gens[i]| ==> gens[i][j].first != gens[i][j].second) &&
    (forall i, j, i', j' ::
       (0 <= i < |gens| && 0 <= j < |gens[i]| && 0 <= i' < |gens| && 0 <= j' < |gens[i']| && (i, j) != (i', j')) ==>
       Objs(gens[i][j]) !! Objs(gens[i'][j']))
  }

  /** The register g runs the configuration c. */
  ghost predicate Runs(g: MAG, c: Config)
  {
    g.r == c.r && g.n == c.n && g.pp == c.pp && g.mf == c.mf
  }

  /** Lists of separate registers stay separate when a list of new registers is added. */
  lemma SeparateAppend(gens: seq<seq<GenPair>>, row: seq<GenPair>)
    requires Separate(gens) && Separate([row])
    requires forall i, j, j' :: 0 <= i < |gens| && 0 <= j < |gens[i]| && 0 <= j' < |row| ==>
      Objs(gens[i][j]) !! Objs(row[j'])
    ensures Separate(gens + [row])
  {
    var all := gens + [row];
    forall i, j, i', j' |
      0 <= i < |all| && 0 <= j < |all[i]| && 0 <= i' < |all| && 0 <= j' < |all[i']| && (i, j) != (i', j')
      ensures Objs(all[i][j]) !! Objs(all[i'][j'])
    {
      if i < |gens| && i' < |gens| {
        assert all[i] == gens[i] && all[i'] == gens[i'];
      } else if i < |gens| {
        assert all[i'] == row && all[i] == gens[i];
      } else if i' < |gens| {
        assert all[i] == row && all[i'] == gens[i'];
      } else {
        assert all[i] == [row][0] && all[i'] == [row][0];
      }
    }
    forall i, j | 0 <= i < |all| && 0 <= j < |all[i]| ensures all[i][j].first != all[i][j].second {
      if i < |gens| {
        assert all[i] == gens[i];
      } else {
        assert all[i] == [row][0];
      }
    }
  }

  /** Every register runs the configuration c. */
  ghost predicate AllRun(gens: seq<seq<GenPair>>, c: Config)
  {
    forall i, j :: 0 <= i < |gens| && 0 <= j < |gens[i]| ==> Runs(gens[i][j].first, c) && Runs(gens[i][j].second, c)
  }

  lemma AllRunAppend(gens: seq<seq<GenPair>>, row: seq<GenPair>, c: Config)
    requires AllRun(gens, c) && AllRun([row], c)
    ensures AllRun(gens + [row], c)
  {
    var all: seq<seq<GenPair>> := gens + [row];
    forall i, j | 0 <= i < |all| && 0 <= j < |all[i]| ensures Runs(all[i][j].first, c) && Runs(all[i][j].second, c) {
      if i < |gens| {
        assert all[i] == gens[i];
      } else {
        assert all[i] == [row][0];
      }
    }
  }

  /** The states the two registers of a pair hold. */
  ghost function HeldBy(p: GenPair): (nat, nat)
    reads p.first, p.second
  {
    (p.first.state, p.second.state)
  }

  /** The states of the neighbours of sample j by bit i after k cycles. */
  function PairRun(c: Config, x: nat, i: nat, k: nat): (nat, nat)
    requires c.n >= 1
  {
    (Run(c, NeighborNumbers(x, i).0, k), Run(c, NeighborNumbers(x, i).1, k))
  }

  /** The index of the first sample that is at least bound, or |samples| when there is none. */
  function FirstAtLeast(samples: seq<nat>, bound: nat): (j: nat)
    ensures j <= |samples| && forall k :: 0 <= k < j ==> samples[k] < bound
    ensures j < |samples| ==> samples[j] >= bound
  {
    if |samples| == 0 then 0
    else if samples[0] >= bound then 0
    else 1 + FirstAtLeast(samples[1..], bound)
  }

  /**
   * The error get_GEN_class_generators raises, if any. With n*r <= 0 or no
   * samples it builds no register and cannot raise. Otherwise its first
   * construction rejects a bad r, n or pp; failing that, the first sample
   * wider than n*r bits is rejected as an initial state.
   */
  function GeneratorsFailure(n: int, r: int, pp: seq<int>, samples: seq<nat>): Option<ConfigError>
  {
    if n * r <= 0 || |samples| == 0 then None
    else if Validate(r, n, pp, 0).Some? then Validate(r, n, pp, 0)
    else if FirstAtLeast(samples, Pow2(n * r)) < |samples| then Some(InitStateTooWide)
    else None
  }

  /** The configuration of the registers once r, n and pp pass the constructor's checks. */
  function AcceptedConfig(r: int, n: int, pp: seq<int>, mf: nat -> nat): (c: Config)
    requires Validate(r, n, pp, 0).None?
    ensures ValidConfig(c) && c.r == r && c.n == n && c.mf == mf
    ensures |c.pp| == |pp| && forall k :: 0 <= k < |pp| ==> c.pp[k] == pp[k]
  {
    ValidateAccepts(r, n, pp, 0);
    var taps := TapsOf(pp);
    assert forall k :: 0 <= k < |taps| ==> taps[k] < n by {
      forall k | 0 <= k < |taps| ensures taps[k] < n {
        assert pp[k] in pp;
      }
    }
    Config(r, n, taps, mf)
  }

  /** With r, n and pp accepted, a construction is rejected exactly for an initial state of more than n*r bits. */
  lemma ValidateInitState(r: int, n: int, pp: seq<int>, s: nat)
    requires Validate(r, n, pp, 0).None?
    ensures r > 0 && n > 0
    ensures Validate(r, n, pp, s) == if s < Pow2(n * r) then None else Some(InitStateTooWide)
  {
    ValidateAccepts(r, n, pp, 0);
    ValidateAccepts(r, n, pp, s);
  }

  /**
   * GeneratorsFailure is None exactly when the source accepts every one of
   * its constructions; otherwise it is the error of the first construction
   * the loops reject, taken in their order: bit 0 first, samples in order,
   * the first neighbour of a sample before the second.
   */
  lemma GeneratorsFailureIsFirstRejection(n: int, r: int, pp: seq<int>, samples: seq<nat>)
    requires n * r > 0 && |samples| > 0
    ensures GeneratorsFailure(n, r, pp, samples).None? <==>
      forall i, j :: 0 <= i < n * r && 0 <= j < |samples| ==>
        Validate(r, n, pp, NeighborNumbers(samples[j], i).0) == None &&
        Validate(r, n, pp, NeighborNumbers(samples[j], i).1) == None
    ensures GeneratorsFailure(n, r, pp, samples).Some? ==>
      exists j0 :: 0 <= j0 < |samples| &&
        Validate(r, n, pp, NeighborNumbers(samples[j0], 0).0) == GeneratorsFailure(n, r, pp, samples) &&
        forall j :: 0 <= j < j0 ==>
          Validate(r, n, pp, NeighborNumbers(samples[j], 0).0) == None &&
          Validate(r, n, pp, NeighborNumbers(samples[j], 0).1) == None
  {
    var first := NeighborNumbers(samples[0], 0).0;
    if Validate(r, n, pp, 0).Some? {
      assert Validate(r, n, pp, first) == Validate(r, n, pp, 0);
    } else {
      ValidateInitState(r, n, pp, 0);
      var m := n * r;
      var j0 := FirstAtLeast(samples, Pow2(m));
      forall i, j | 0 <= i < m && 0 <= j < j0
        ensures Validate(r, n, pp, NeighborNumbers(samples[j], i).0) == None &&
                Validate(r, n, pp, NeighborNumbers(samples[j], i).1) == None
      {
        NeighborsBelow(samples[j], i, m);
        ValidateInitState(r, n, pp, NeighborNumbers(samples[j], i).0);
        ValidateInitState(r, n, pp, NeighborNumbers(samples[j], i).1);
      }
      if j0 < |samples| {
        var wide := NeighborNumbers(samples[j0], 0).0;
        OrAtLeast(samples[j0], Pow2(0));
        ValidateInitState(r, n, pp, wide);
        assert Validate(r, n, pp, wide) == Some(InitStateTooWide);
      }
    }
  }

  /**
   * `get_GEN_class_generators(n, r, pp, mf, samples, MAG)`: n*r lists (none
   * when n*r <= 0), list i holding, for each sample, fresh registers started
   * from its two neighbours by bit i; it raises what the first rejected
   * construction raises. Nothing outside the new registers changes before a
   * construction can fail, so the model decides the failure before the loops.
   */
  method GetGenClassGenerators(n: int, r: int, pp: seq<int>, mf: nat -> nat, samples: seq<nat>)
    returns (res: Result<seq<seq<GenPair>>, ConfigError>)
    ensures GeneratorsFailure(n, r, pp, samples).Some? ==> res == Failure(GeneratorsFailure(n, r, pp, samples).value)
    ensures GeneratorsFailure(n, r, pp, samples).None? ==>
      res.Success? && |res.value| == Visited(n * r) &&
      (forall i :: 0 <= i < |res.value| ==> |res.value[i]| == |samples|) &&
      Separate(res.value) && fresh(Footprint(res.value))
    ensures res.Success? && n * r > 0 && |samples| > 0 && Validate(r, n, pp, 0).None? ==>
      AllRun(res.value, AcceptedConfig(r, n, pp, mf)) &&
      forall i, j :: 0 <= i < n * r && 0 <= j < |samples| ==>
        HeldBy(res.value[i][j]) == PairRun(AcceptedConfig(r, n, pp, mf), samples[j], i, 0)
  {
    var length := n * r;
    if length <= 0 || |samples| == 0 {
      var empty: seq<seq<GenPair>> := seq(Visited(length), _ => []);
      return Success(empty);
    }
    var failure := GeneratorsFailure(n, r, pp, samples);
    if failure.Some? {
      return Failure(failure.value);
    }
    ghost var c := AcceptedConfig(r, n, pp, mf);
    var gens := NeighborRows(n, r, TapsOf(pp), mf, samples);
    return Success(gens);
  }

  /** The loops of get_GEN_class_generators once every construction is known to be accepted. */
  method NeighborRows(n: nat, r: nat, pp: seq<nat>, mf: nat -> nat, samples: seq<nat>)
    returns (gens: seq<seq<GenPair>>)
    requires ValidConfig(Config(r, n, pp, mf))
    requires forall j :: 0 <= j < |samples| ==> samples[j] < Pow2(n * r)
    ensures |gens| == n * r && forall i :: 0 <= i < n * r ==> |gens[i]| == |samples|
    ensures Separate(gens) && AllRun(gens, Config(r, n, pp, mf)) && fresh(Footprint(gens))
    ensures forall i, j :: 0 <= i < n * r && 0 <= j < |samples| ==>
      HeldBy(gens[i][j]) == PairRun(Config(r, n, pp, mf), samples[j], i, 0)
  {
    ghost var c := Config(r, n, pp, mf);
    var length := n * r;
    gens := [];
    for i := 0 to length
      invariant |gens| == i && forall i' :: 0 <= i' < i ==> |gens[i']| == |samples|
      invariant Separate(gens) && AllRun(gens, c) && fresh(Footprint(gens))
      invariant Started(gens, samples)
    {
      gens := AppendNeighborRow(gens, n, r, pp, mf, samples, i);
    }
    PairRunStart(c);
  }

  /** Before any cycle, the two registers of a pair hold the two neighbours. */
  lemma PairRunStart(c: Config)
    requires c.n >= 1
    ensures forall x: nat, i: nat :: PairRun(c, x, i, 0) == NeighborNumbers(x, i)
  {
  }

  /** Lists made only of new registers have a new footprint. */
  twostate lemma FootprintFresh(new gens: seq<seq<GenPair>>)
    requires forall i, j :: 0 <= i < |gens| && 0 <= j < |gens[i]| ==>
      fresh(gens[i][j].first) && fresh(gens[i][j].second)
    ensures fresh(Footprint(gens))
  {
    forall o | o in Footprint(gens) ensures fresh(o) {
      var i, j :| 0 <= i < |gens| && 0 <= j < |gens[i]| && o in Objs(gens[i][j]);
      assert fresh(gens[i][j].first) && fresh(gens[i][j].second);
    }
  }

  /** The footprint of lists with one more list added. */
  lemma FootprintAppend(gens: seq<seq<GenPair>>, row: seq<GenPair>)
    ensures Footprint(gens + [row]) == Footprint(gens) + Footprint([row])
  {
    var all := gens + [row];
    forall o | o in Footprint(all) ensures o in Footprint(gens) + Footprint([row]) {
      var i, j :| 0 <= i < |all| && 0 <= j < |all[i]| && o in Objs(all[i][j]);
      if i < |gens| {
        assert all[i] == gens[i];
      } else {
        assert all[i] == [row][0];
      }
    }
    forall o | o in Footprint(gens) ensures o in Footprint(all) {
      var i, j :| 0 <= i < |gens| && 0 <= j < |gens[i]| && o in Objs(gens[i][j]);
      assert all[i] == gens[i];
    }
    forall o | o in Footprint([row]) ensures o in Footprint(all) {
      var i, j :| 0 <= i < 1 && 0 <= j < |[row][i]| && o in Objs([row][i][j]);
      assert all[|gens|] == row;
    }
  }

  /** One step of the outer loop of get_GEN_class_generators: list i appended to the lists before it. */
  method AppendNeighborRow(gens: seq<seq<GenPair>>, n: nat, r: nat, pp: seq<nat>, mf: nat -> nat, samples: seq<nat>, i: nat)
    returns (gens': seq<seq<GenPair>>)
    requires ValidConfig(Config(r, n, pp, mf)) && i < n * r
    requires forall j :: 0 <= j < |samples| ==> samples[j] < Pow2(n * r)
    requires |gens| == i && Separate(gens) && AllRun(gens, Config(r, n, pp, mf)) && Started(gens, samples)
    ensures |gens'| == i + 1 && forall i' :: 0 <= i' < i ==> gens'[i'] == gens[i']
    ensures |gens'[i]| == |samples| && Separate(gens') && AllRun(gens', Config(r, n, pp, mf))
    ensures Footprint(gens') == Footprint(gens) + Footprint([gens'[i]]) && fresh(Footprint([gens'[i]]))
    ensures Started(gens', samples)
  {
    var row := NeighborGenerators(n, r, pp, mf, samples, i);
    assert forall i', j, j' :: 0 <= i' < i && 0 <= j < |gens[i']| && 0 <= j' < |row| ==>
      Objs(gens[i'][j]) !! Objs(row[j']);
    SeparateAppend(gens, row);
    AllRunAppend(gens, row, Config(r, n, pp, mf));
    gens' := gens + [row];
    assert gens'[i] == row;
    FootprintAppend(gens, row);
    FootprintFresh([row]);
    StartedAppend(gens, row, samples);
  }

  /** Pair j of list i holds the two neighbours of sample j by bit i. */
  ghost predicate Started(gens: seq<seq<GenPair>>, samples: seq<nat>)
    reads Footprint(gens)
  {
    forall i, j :: 0 <= i < |gens| && 0 <= j < |gens[i]| && j < |samples| ==>
      (InFootprint(gens, i, j); HeldBy(gens[i][j]) == NeighborNumbers(samples[j], i))
  }

  lemma StartedAppend(gens: seq<seq<GenPair>>, row: seq<GenPair>, samples: seq<nat>)
    requires Started(gens, samples)
    requires forall j :: 0 <= j < |row| && j < |samples| ==> HeldBy(row[j]) == NeighborNumbers(samples[j], |gens|)
    ensures Started(gens + [row], samples)
  {
    var all := gens + [row];
    forall i, j | 0 <= i < |all| && 0 <= j < |all[i]| && j < |samples|
      ensures HeldBy(all[i][j]) == NeighborNumbers(samples[j], i)
    {
      if i < |gens| {
        assert all[i] == gens[i];
      } else {
        assert all[i] == row;
      }
    }
  }

  /** One list of get_GEN_class_generators: the pairs for bit i, one per sample. */
  method NeighborGenerators(n: nat, r: nat, pp: seq<nat>, mf: nat -> nat, samples: seq<nat>, i: nat)
    returns (row: seq<GenPair>)
    requires ValidConfig(Config(r, n, pp, mf)) && i < n * r
    requires forall j :: 0 <= j < |samples| ==> samples[j] < Pow2(n * r)
    ensures |row| == |samples| && Separate([row]) && AllRun([row], Config(r, n, pp, mf))
    ensures forall j :: 0 <= j < |samples| ==>
      fresh(row[j].first) && fresh(row[j].second) &&
      HeldBy(row[j]) == NeighborNumbers(samples[j], i)
  {
    ghost var c := Config(r, n, pp, mf);
    row := [];
    for j := 0 to |samples|
      invariant |row| == j && RowSeparate(row) && RowRuns(row, c)
      invariant forall j' :: 0 <= j' < j ==> fresh(row[j'].first) && fresh(row[j'].second)
      invariant forall j' :: 0 <= j' < j ==> HeldBy(row[j']) == NeighborNumbers(samples[j'], i)
    {
      var (first, second) := NeighborNumbers(samples[j], i);
      NeighborsBelow(samples[j], i, n * r);
      var genFirst := new MAG(r, n, pp, mf, first);
      var genSecond := new MAG(r, n, pp, mf, second);
      var pair := GenPair(genFirst, genSecond);
      assert HeldBy(pair) == NeighborNumbers(samples[j], i);
      assert forall j' :: 0 <= j' < j ==> Objs(row[j']) !! Objs(pair);
      RowSeparateAppend(row, pair);
      row := row + [pair];
      assert row[j] == pair;
    }
    RowSeparateIsSeparate(row, c);
  }

  /** The pairs of one list are separate from each other, and each pair holds two registers. */
  predicate RowSeparate(row: seq<GenPair>)
  {
    (forall j :: 0 <= j < |row| ==> row[j].first != row[j].second) &&
    (forall j, j' :: 0 <= j < |row| && 0 <= j' < |row| && j != j' ==> Objs(row[j]) !! Objs(row[j']))
  }

  /** Every register of one list runs c. */
  ghost predicate RowRuns(row: seq<GenPair>, c: Config)
  {
    forall j :: 0 <= j < |row| ==> Runs(row[j].first, c) && Runs(row[j].second, c)
  }

  lemma RowSeparateAppend(row: seq<GenPair>, p: GenPair)
    requires RowSeparate(row) && p.first != p.second
    requires forall j :: 0 <= j < |row| ==> Objs(row[j]) !! Objs(p)
    ensures RowSeparate(row + [p])
  {
    var all := row + [p];
    forall j, j' | 0 <= j < |all| && 0 <= j' < |all| && j != j' ensures Objs(all[j]) !! Objs(all[j']) {
      if j < |row| && j' < |row| {
        assert all[j] == row[j] && all[j'] == row[j'];
      }
    }
  }

  /** A separate list is a separate one-list generator table. */
  lemma RowSeparateIsSeparate(row: seq<GenPair>, c: Config)
    requires RowSeparate(row)
    ensures Separate([row])
    ensures RowRuns(row, c) ==> AllRun([row], c)
  {
    var t := [row];
    assert forall i :: 0 <= i < |t| ==> t[i] == row;
  }

  // ---------------------------------------------------------------------
  // get_next_gens_states

  /** Both states of a pair after one more cycle. */
  function StepPair(c: Config, s: (nat, nat)): (nat, nat)
    requires c.n >= 1
  {
    (Step(c, s.0), Step(c, s.1))
  }

  /** One element of get_next_gens_states: `next()` on both registers, keeping the whole states. */
  method AdvancePair(p: GenPair, ghost c: Config) returns (s: (nat, nat))
    requires ValidConfig(c) && Runs(p.first, c) && Runs(p.second, c) && p.first != p.second
    modifies p.first, p.second
    ensures s == StepPair(c, old(HeldBy(p))) && HeldBy(p) == s
  {
    var _, firstState := p.first.Next();
    var _, secondState := p.second.Next();
    s := (firstState, secondState);
  }

  /** The pairs get_next_gens_states advances: the first n lists, the first samplesNum pairs of each. */
  predicate GensShape(n: int, samplesNum: int, gens: seq<seq<GenPair>>)
  {
    n <= |gens| && forall i :: 0 <= i < n ==> samplesNum <= |gens[i]|
  }

  /**
   * `get_next_gens_states(n, samples_num, gens)`: every register of the
   * first n lists, first samples_num pairs, is advanced exactly once and
   * the whole states are recorded in the same layout; every other register
   * keeps its state.
   */
  method GetNextGensStates(n: int, samplesNum: int, gens: seq<seq<GenPair>>, ghost c: Config)
    returns (states: seq<seq<(nat, nat)>>)
    requires GensShape(n, samplesNum, gens) && Separate(gens) && AllRun(gens, c) && ValidConfig(c)
    modifies Footprint(gens)
    ensures |states| == Visited(n) && forall i :: 0 <= i < |states| ==> |states[i]| == Visited(samplesNum)
    ensures forall i, j :: 0 <= i < Visited(n) && 0 <= j < Visited(samplesNum) ==>
      states[i][j] == StepPair(c, old(HeldBy(gens[i][j]))) && HeldBy(gens[i][j]) == states[i][j]
    ensures forall i, j :: 0 <= i < |gens| && 0 <= j < |gens[i]| && !(i < n && j < samplesNum) ==>
      HeldBy(gens[i][j]) == old(HeldBy(gens[i][j]))
  {
    var count := Visited(samplesNum);
    states := [];
    var i := 0;
    while i < n
      invariant 0 <= i <= Visited(n)
      invariant |states| == i && forall i' :: 0 <= i' < i ==> |states[i']| == count
      invariant forall i', j :: 0 <= i' < i && 0 <= j < count ==>
        states[i'][j] == StepPair(c, old(HeldBy(gens[i'][j]))) && HeldBy(gens[i'][j]) == states[i'][j]
      invariant forall i', j :: 0 <= i' < |gens| && 0 <= j < |gens[i']| && !(i' < i && j < count) ==>
        HeldBy(gens[i'][j]) == old(HeldBy(gens[i'][j]))
    {
      var row := AdvanceRow(count, gens, i, c);
      states := states + [row];
      assert states[i] == row;
      i := i + 1;
    }
  }

  /** The inner loop of get_next_gens_states: the first count pairs of list i. */
  method AdvanceRow(count: nat, gens: seq<seq<GenPair>>, i: nat, ghost c: Config) returns (row: seq<(nat, nat)>)
    requires i < |gens| && count <= |gens[i]| && Separate(gens) && AllRun(gens, c) && ValidConfig(c)
    modifies Footprint(gens)
    ensures |row| == count
    ensures forall j :: 0 <= j < count ==>
      row[j] == StepPair(c, old(HeldBy(gens[i][j]))) && HeldBy(gens[i][j]) == row[j]
    ensures forall i', j :: 0 <= i' < |gens| && 0 <= j < |gens[i']| && !(i' == i && j < count) ==>
      HeldBy(gens[i'][j]) == old(HeldBy(gens[i'][j]))
  {
    row := [];
    var j := 0;
    while j < count
      invariant 0 <= j <= count && |row| == j
      invariant forall j' :: 0 <= j' < j ==>
        row[j'] == StepPair(c, old(HeldBy(gens[i][j']))) && HeldBy(gens[i][j']) == row[j']
      invariant forall j' :: j <= j' < |gens[i]| ==> HeldBy(gens[i][j']) == old(HeldBy(gens[i][j']))
      invariant forall i', j' :: 0 <= i' < |gens| && 0 <= j' < |gens[i']| && i' != i ==>
        HeldBy(gens[i'][j']) == old(HeldBy(gens[i'][j']))
    {
      assert HeldBy(gens[i][j]) == old(HeldBy(gens[i][j]));
      label Before:
      var s := AdvanceAt(gens, i, j, c);
      assert s == StepPair(c, old(HeldBy(gens[i][j])));
      forall j' | 0 <= j' < |gens[i]| && j' != j ensures HeldBy(gens[i][j']) == old@Before(HeldBy(gens[i][j'])) {
        assert (i, j') != (i, j);
      }
      ghost var prev := row;
      row := row + [s];
      assert row[j] == s && forall j' :: 0 <= j' < j ==> row[j'] == prev[j'];
      j := j + 1;
    }
  }

  /** Advancing pair (i, j) of separate lists changes no other pair. */
  method AdvanceAt(gens: seq<seq<GenPair>>, i: nat, j: nat, ghost c: Config) returns (s: (nat, nat))
    requires i < |gens| && j < |gens[i]| && Separate(gens) && AllRun(gens, c) && ValidConfig(c)
    modifies Footprint(gens)
    ensures s == StepPair(c, old(HeldBy(gens[i][j]))) && HeldBy(gens[i][j]) == s
    ensures forall i', j' :: 0 <= i' < |gens| && 0 <= j' < |gens[i']| && (i', j') != (i, j) ==>
      HeldBy(gens[i'][j']) == old(HeldBy(gens[i'][j']))
  {
    var p := gens[i][j];
    InFootprint(gens, i, j);
    s := AdvancePair(p, c);
    forall i', j' | 0 <= i' < |gens| && 0 <= j' < |gens[i']| && (i', j') != (i, j)
      ensures HeldBy(gens[i'][j']) == old(HeldBy(gens[i'][j']))
    {
      assert Objs(gens[i'][j']) !! Objs(p);
    }
  }

  // ---------------------------------------------------------------------
  // get_GEN_class_perfection_power

  /** The states check_current_round sees after k cycles: row i, column j holds the neighbours of samples[j] by bit i. */
  function StatesAfter(c: Config, samples: seq<nat>, width: nat, k: nat): (states: seq<seq<(nat, nat)>>)
    requires c.n >= 1
    ensures |states| == width && forall i :: 0 <= i < width ==> |states[i]| == |samples|
    ensures forall i, j :: 0 <= i < width && 0 <= j < |samples| ==> states[i][j] == PairRun(c, samples[j], i, k)
  {
    seq(width, i requires 0 <= i < width =>
      seq(|samples|, j requires 0 <= j < |samples| => PairRun(c, samples[j], i, k)))
  }

  /** Round k (counted from 1) passes the test, at width n*r. */
  predicate PerfectAt(c: Config, samples: seq<nat>, k: nat)
    requires c.n >= 1
  {
    RoundPerfect(c.n * c.r, |samples|, StatesAfter(c, samples, c.n * c.r, k))
  }

  /** The first passing round after round, up to maxRounds, or -1. */
  function PerfectRoundFrom(c: Config, samples: seq<nat>, round: nat, maxRounds: int): (k: int)
    requires c.n >= 1
    decreases maxRounds - round
  {
    if round >= maxRounds then -1
    else if PerfectAt(c, samples, round + 1) then round + 1
    else PerfectRoundFrom(c, samples, round + 1, maxRounds)
  }

  /** The value get_GEN_class_perfection_power returns for the given samples. */
  function PerfectionPower(c: Config, samples: seq<nat>, maxRounds: int): int
    requires c.n >= 1
  {
    PerfectRoundFrom(c, samples, 0, maxRounds)
  }

  /** Why get_GEN_class_perfection_power raises. */
  datatype PowerError =
    | NegativeSampleWidth            // gen_random_samples shifts 1 left by n*r < 0
    | RegisterRejected(error: ConfigError)

  /**
   * `get_GEN_class_perfection_power(n, r, pp, mf, len(samples), max_rounds, MAG)`
   * on the given samples: draws the samples (raising for n*r < 0), builds the
   * registers, then for each round advances them all once and tests the
   * round at width n*r. Without registers (n*r = 0 or no samples) the rounds
   * still run: a test over zero bits passes, a test without samples fails.
   */
  method GetGenClassPerfectionPower(n: int, r: int, pp: seq<int>, mf: nat -> nat, samples: seq<nat>, maxRounds: int)
    returns (res: Result<int, PowerError>)
    requires n * r >= 0 ==> forall j :: 0 <= j < |samples| ==> samples[j] < Pow2(n * r)
    ensures n * r < 0 ==> res == Failure(NegativeSampleWidth)
    ensures n * r >= 0 && GeneratorsFailure(n, r, pp, samples).Some? ==>
      res == Failure(RegisterRejected(GeneratorsFailure(n, r, pp, samples).value))
    ensures n * r == 0 ==> res == Success(if maxRounds >= 1 then 1 else -1)
    ensures n * r > 0 && |samples| == 0 ==> res == Success(-1)
    ensures n * r > 0 && |samples| > 0 && Validate(r, n, pp, 0).None? ==>
      res == Success(PerfectionPower(AcceptedConfig(r, n, pp, mf), samples, maxRounds))
  {
    var length := n * r;
    if length < 0 {
      return Failure(NegativeSampleWidth);
    }
    var gensRes := GetGenClassGenerators(n, r, pp, mf, samples);
    if gensRes.Failure? {
      return Failure(RegisterRejected(gensRes.error));
    }
    var gens := gensRes.value;
    var power;
    if length == 0 || |samples| == 0 {
      power := SearchWithoutRegisters(length, |samples|, gens, maxRounds);
    } else {
      ghost var c := AcceptedConfig(r, n, pp, mf);
      assert GeneratorsFailure(n, r, pp, samples).None?;
      power := SearchRounds(length, gens, c, samples, maxRounds);
    }
    return Success(power);
  }

  /**
   * The round loop of get_GEN_class_perfection_power when the lists hold no
   * register: the first round passes when the width is 0 and no round
   * passes when there are no samples.
   */
  method SearchWithoutRegisters(length: nat, samplesNum: nat, gens: seq<seq<GenPair>>, maxRounds: int)
    returns (power: int)
    requires length == 0 || samplesNum == 0
    requires |gens| == length && forall i :: 0 <= i < length ==> |gens[i]| == samplesNum
    modifies Footprint(gens)
    ensures power == if length == 0 && maxRounds >= 1 then 1 else -1
  {
    // No register is advanced, so any valid configuration describes them all.
    ghost var c := Config(1, 1, [0], v => v);
    var round := 0;
    while round < maxRounds
      invariant 0 <= round && (round > 0 ==> length > 0)
      decreases maxRounds - round
    {
      var roundStates := GetNextGensStates(length, samplesNum, gens, c);
      var perfect := CheckCurrentRound(length, samplesNum, roundStates);
      if length > 0 {
        NoSamplesNotPerfect(length, samplesNum, roundStates);
      }
      if perfect {
        return round + 1;
      }
      round := round + 1;
    }
    return -1;
  }

  /** The round loop of get_GEN_class_perfection_power over registers started at the neighbours. */
  method SearchRounds(length: nat, gens: seq<seq<GenPair>>, ghost c: Config, samples: seq<nat>, maxRounds: int)
    returns (power: int)
    requires ValidConfig(c) && length == c.n * c.r && Separate(gens) && AllRun(gens, c)
    requires |gens| == length && forall i :: 0 <= i < length ==> |gens[i]| == |samples|
    requires forall i, j :: 0 <= i < length && 0 <= j < |samples| ==> HeldBy(gens[i][j]) == PairRun(c, samples[j], i, 0)
    modifies Footprint(gens)
    ensures power == PerfectionPower(c, samples, maxRounds)
  {
    var round := 0;
    while round < maxRounds
      invariant 0 <= round
      invariant PerfectRoundFrom(c, samples, round, maxRounds) == PerfectionPower(c, samples, maxRounds)
      invariant forall i, j :: 0 <= i < length && 0 <= j < |samples| ==>
        HeldBy(gens[i][j]) == PairRun(c, samples[j], i, round)
      decreases maxRounds - round
    {
      var roundStates := NextRound(gens, c, samples, round);
      var perfect := CheckCurrentRound(length, |samples|, roundStates);
      if perfect {
        return round + 1;
      }
      round := round + 1;
    }
    return -1;
  }

  /** One round of the search: all registers advanced once, the states are those after round + 1 cycles. */
  method NextRound(gens: seq<seq<GenPair>>, ghost c: Config, samples: seq<nat>, round: nat)
    returns (states: seq<seq<(nat, nat)>>)
    requires ValidConfig(c) && Separate(gens) && AllRun(gens, c)
    requires |gens| == c.n * c.r && forall i :: 0 <= i < |gens| ==> |gens[i]| == |samples|
    requires forall i, j :: 0 <= i < |gens| && 0 <= j < |samples| ==> HeldBy(gens[i][j]) == PairRun(c, samples[j], i, round)
    modifies Footprint(gens)
    ensures states == StatesAfter(c, samples, c.n * c.r, round + 1)
    ensures forall i, j :: 0 <= i < |gens| && 0 <= j < |samples| ==> HeldBy(gens[i][j]) == PairRun(c, samples[j], i, round + 1)
  {
    states := GetNextGensStates(|gens|, |samples|, gens, c);
    ghost var want := StatesAfter(c, samples, c.n * c.r, round + 1);
    assert forall i :: 0 <= i < |gens| ==> states[i] == want[i];
  }

  // ---------------------------------------------------------------------
  // Properties of the search

  /** The search from round finds the first passing round in (round, maxRounds], and -1 when there is none. */
  lemma {:induction false} PerfectRoundFromIsFirst(c: Config, samples: seq<nat>, round: nat, maxRounds: int)
    requires c.n >= 1
    ensures var k := PerfectRoundFrom(c, samples, round, maxRounds);
      (k == -1 <==> forall t :: round < t <= maxRounds ==> !PerfectAt(c, samples, t)) &&
      (k != -1 ==> round < k <= maxRounds && PerfectAt(c, samples, k) &&
                   forall t :: round < t < k ==> !PerfectAt(c, samples, t))
    decreases maxRounds - round
  {
    if round < maxRounds && !PerfectAt(c, samples, round + 1) {
      PerfectRoundFromIsFirst(c, samples, round + 1, maxRounds);
    }
  }

  /**
   * get_GEN_class_perfection_power returns the first round in [1, maxRounds]
   * that passes the test, and -1 exactly when none of them does.
   */
  lemma PerfectionPowerIsFirst(c: Config, samples: seq<nat>, maxRounds: int)
    requires c.n >= 1
    ensures var k := PerfectionPower(c, samples, maxRounds);
      (k == -1 <==> forall t :: 1 <= t <= maxRounds ==> !PerfectAt(c, samples, t)) &&
      (k != -1 ==> 1 <= k <= maxRounds && PerfectAt(c, samples, k) &&
                   forall t :: 1 <= t < k ==> !PerfectAt(c, samples, t))
  {
    PerfectRoundFromIsFirst(c, samples, 0, maxRounds);
  }

  /**
   * For a register whose modifying function keeps r bits, a round passes
   * exactly when, for every input bit i and every state bit b, some sample's
   * two neighbours by bit i lead to states that differ in bit b.
   */
  lemma PerfectAtMeaning(c: Config, samples: seq<nat>, k: nat)
    requires ValidConfig(c) && MapsCells(c.mf, c.r)
    requires forall j :: 0 <= j < |samples| ==> samples[j] < Pow2(c.n * c.r)
    ensures var w := c.n * c.r; var states := StatesAfter(c, samples, w, k);
      PerfectAt(c, samples, k) <==>
      forall i, b :: 0 <= i < w && 0 <= b < w ==> Flipped(states[i], |samples|, b)
  {
    var w := c.n * c.r;
    var states := StatesAfter(c, samples, w, k);
    forall i | 0 <= i < w
      ensures Accumulated(states[i], |samples|) == Pow2(w) - 1 <==>
        forall b :: 0 <= b < w ==> Flipped(states[i], |samples|, b)
    {
      forall j | 0 <= j < |samples| ensures states[i][j].0 < Pow2(w) && states[i][j].1 < Pow2(w) {
        NeighborsBelow(samples[j], i, w);
        RunBelow(c, NeighborNumbers(samples[j], i).0, k);
        RunBelow(c, NeighborNumbers(samples[j], i).1, k);
      }
      RowCoveredMeaning(states[i], |samples|, w);
    }
  }

  /** The modifying function the program passes: `enc_SPECK32_wt_key` with its default of one round. */
  function SpeckModifier(v: nat): nat
  {
    Speck.Rounds(v, 1)
  }

  /** With cells of at least 32 bits it maps cell values to cell values, as PerfectAtMeaning needs. */
  lemma SpeckModifierKeepsWideCells(r: nat)
    requires r >= 32
    ensures MapsCells(SpeckModifier, r)
  {
    forall v: nat | v < Pow2(r) ensures SpeckModifier(v) < Pow2(r) {
      Speck.RoundsLow(v, 1);
      Pow2Monotone(32, r);
    }
  }

  /**
   * With cells of at most 16 bits it does not: the cell value 1 becomes
   * 0x10005, so the register's state grows past its n*r bits.
   */
  lemma SpeckModifierLeavesNarrowCells(r: nat)
    requires 1 <= r <= 16
    ensures 1 < Pow2(r) && SpeckModifier(1) == 0x10005 && SpeckModifier(1) >= Pow2(r)
    ensures !MapsCells(SpeckModifier, r)
  {
    SpeckModifierOfOne();
    Pow2Monotone(r, 16);
    Pow2Strict(0, r);
    Speck.ModMaskIsLowMask();
  }

  /** One keyless round takes the block 1 (words 0 and 1) to the words 1 and 5. */
  lemma SpeckModifierOfOne()
    ensures SpeckModifier(1) == 0x10005
  {
    Speck.ModMaskIsLowMask();
    assert Speck.HighWord(1) == 0 && Speck.LowWord(1) == 1 by {
      Speck.Words(1);
      assert Shr(1, Speck.WordSize) == 0;
    }
    Speck.OneRoundKeyZero(1);
    Speck.OneRoundBlock(1, 0);
    assert Speck.SpeckRound(0, 1, 0) == (1, 5) by {
      SpeckWordsOfOne();
    }
  }

  lemma SpeckWordsOfOne()
    ensures Speck.SpeckRound(0, 1, 0) == (1, 5)
  {
    var a := Speck.RotateRight(0, Speck.AlphaShift, Speck.WordSize);
    var l := Speck.RotateLeft(1, Speck.BetaShift, Speck.WordSize);
    assert a == 0 by {
      ShrOfZero(Speck.AlphaShift);
    }
    assert l == 4 by {
      RotateOneLeftTwice();
    }
    assert (a + 1) % Pow2(Speck.WordSize) == 1 by {
      Pow2Strict(0, Speck.WordSize);
      ModOfSmall(1, Pow2(Speck.WordSize));
    }
    Speck.SpeckRoundOf(0, 1, 0, 1, l);
    assert Xor(0, 1) == 1;
    assert Xor(1, 4) == 5 by {
      assert Xor(0, 2) == 2;
    }
  }

  lemma ShrOfZero(k: nat)
    ensures Shr(0, k) == 0
  {
  }

  lemma RotateOneLeftTwice()
    ensures Speck.RotateLeft(1, Speck.BetaShift, Speck.WordSize) == 4
  {
    var p := Pow2(14);
    Pow2Strict(0, 14);
    ModOfSmall(1, p);
    assert Shr(1, 14) == 0 by {
      DivBelow(1, p, 1);
    }
    assert Pow2(2) == 4;
  }

  /** Without samples no round passes, so the search gives -1. */
  lemma PerfectionPowerNoSamples(c: Config, maxRounds: int)
    requires ValidConfig(c)
    ensures PerfectionPower(c, [], maxRounds) == -1
  {
    forall t | 1 <= t <= maxRounds ensures !PerfectAt(c, [], t) {
      NoSamplesNotPerfect(c.n * c.r, 0, StatesAfter(c, [], c.n * c.r, t));
    }
    PerfectionPowerIsFirst(c, [], maxRounds);
  }
}
