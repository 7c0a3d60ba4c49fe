/** The accumulation shared by the community reports: one vector of sums
    per community code, initialised to zeros in the order of the
    communities table, and one `+=` per data row that names a community.
    The reports differ in what a row for an unknown community does and in
    the width of the vectors; the numpy broadcasting rule of `+=` is the
    `Shape`. */
module Fold {
  import opened Wrappers
  import opened Dict
  import opened Vec

  /** A community's running sums and whether any row has been added to it
      (the `_has` flag of the variation report). */
  datatype Slot = Slot(sums: seq<real>, hit: bool)

  type Acc = Dict<string, Slot>

  /** What one data row asks of the accumulator: nothing, or adding its
      values to a community. */
  datatype Step = Skip | Add(target: string, values: seq<real>)

  /** A row for a community the accumulator lacks is either skipped (the
      reports that test membership first) or fatal (`KeyError` from
      indexing, which no `except` clause catches). */
  datatype Missing = IgnoreMissing | AbortOnMissing

  /** How `+=` treats a value list whose length is not the width. numpy
      broadcasts a single value over every slot (`Broadcast`); the rule the
      reports evidently intend adds exactly `width` values (`ExactWidth`).
      Any other length raises ValueError, which skips the row. */
  datatype Shape = ExactWidth | Broadcast

  /** Every slot holds `width` sums. */
  predicate Uniform(acc: Acc, width: nat) {
    forall p | p in acc :: |p.1.sums| == width
  }

  /** One zero vector per community, in the communities table's order. */
  function Init(codes: seq<string>, width: nat): (acc: Acc)
    ensures Keys(acc) == codes
    ensures forall i | 0 <= i < |acc| :: acc[i].1 == Slot(ZeroVec(width), false)
    ensures Uniform(acc, width)
  {
    seq(|codes|, i requires 0 <= i < |codes| => (codes[i], Slot(ZeroVec(width), false)))
  }

  /** The vector `+=` adds for a value list, if the shapes agree. */
  function Widen(values: seq<real>, width: nat, shape: Shape): (r: Option<seq<real>>)
    ensures r.Some? ==> |r.value| == width
  {
    if |values| == width then Some(values)
    else if shape == Broadcast && |values| == 1 then Some(seq(width, i => values[0]))
    else None
  }

  /** The intended rule: a row is added exactly when it has one value per
      slot, and then as it is. */
  lemma ExactWidthOnly(values: seq<real>, width: nat)
    ensures Widen(values, width, ExactWidth).Some? <==> |values| == width
    ensures |values| == width ==> Widen(values, width, ExactWidth) == Some(values)
  {
  }

  /** As written, numpy's `+=` accepts a row that carries a single value
      and adds that value to EVERY slot of its community, where a row with
      any other wrong number of values is skipped. A CSV row with just a
      code cell and one number therefore counts that number in all the
      year, sex and total columns. Under the intended rule the row is
      skipped like the others. */
  lemma BroadcastQuirk(acc: Acc, width: nat, k: string, x: real, missing: Missing)
    requires Uniform(acc, width) && HasKey(acc, k) && width > 1
    ensures var r := Apply(acc, width, Add(k, [x]), missing, Broadcast);
            var before := Get(acc, k).value.sums;
            r.Some? && forall i | 0 <= i < width :: Get(r.value, k).value.sums[i] == before[i] + x
    ensures Apply(acc, width, Add(k, [x]), missing, ExactWidth) == Some(acc)
  {
    var slot := Get(acc, k).value;
    var ws := Widen([x], width, Broadcast).value;
    assert forall i | 0 <= i < width :: ws[i] == x;
    var next := Slot(Plus(slot.sums, ws), true);
    assert Apply(acc, width, Add(k, [x]), missing, Broadcast) == Some(Put(acc, k, next));
    PutGet(acc, k, next);
  }

  /** One `+=` of a row onto the accumulator; `None` is the abort. */
  function Apply(acc: Acc, width: nat, step: Step, missing: Missing, shape: Shape): (r: Option<Acc>)
    requires Uniform(acc, width)
    ensures r.None? <==> step.Add? && !HasKey(acc, step.target) && missing == AbortOnMissing
    ensures r.Some? ==> Keys(r.value) == Keys(acc) && Uniform(r.value, width)
  {
    match step
    case Skip => Some(acc)
    case Add(t, vs) =>
      match Get(acc, t)
      case None => if missing == AbortOnMissing then None else Some(acc)
      case Some(slot) =>
        match Widen(vs, width, shape)
        case None => Some(acc)
        case Some(ws) =>
          var next := Slot(Plus(slot.sums, ws), true);
          PutKeys(acc, t, next);
          PutPairs(acc, t, next);
          Some(Put(acc, t, next))
  }

  /** The reader's loop: the steps applied in row order, stopping at the
      first abort. */
  function Run(acc: Acc, width: nat, steps: seq<Step>, missing: Missing, shape: Shape): (r: Option<Acc>)
    requires Uniform(acc, width)
    ensures r.Some? ==> Keys(r.value) == Keys(acc) && Uniform(r.value, width)
  {
    if |steps| == 0 then Some(acc)
    else
      match Run(acc, width, steps[..|steps| - 1], missing, shape)
      case None => None
      case Some(a) => Apply(a, width, steps[|steps| - 1], missing, shape)
  }

  /** The step names a community the accumulator does not have. */
  predicate Orphan(acc: Acc, step: Step) {
    step.Add? && !HasKey(acc, step.target)
  }

  /** The loop aborts exactly when aborting is the rule and some row names
      a community that is not in the table. */
  lemma {:induction false} RunAborts(acc: Acc, width: nat, steps: seq<Step>, missing: Missing, shape: Shape)
    requires Uniform(acc, width)
    ensures Run(acc, width, steps, missing, shape).None?
            <==> missing == AbortOnMissing && exists i | 0 <= i < |steps| :: Orphan(acc, steps[i])
    decreases |steps|
  {
    if |steps| > 0 {
      var init := steps[..|steps| - 1];
      RunAborts(acc, width, init, missing, shape);
      if exists i | 0 <= i < |steps| :: Orphan(acc, steps[i]) {
        var i :| 0 <= i < |steps| && Orphan(acc, steps[i]);
        if i < |init| {
          assert Orphan(acc, init[i]);
        }
      }
      if exists i | 0 <= i < |init| :: Orphan(acc, init[i]) {
        var i :| 0 <= i < |init| && Orphan(acc, init[i]);
        assert Orphan(acc, steps[i]);
      }
    }
  }

  /** The step adds a vector to community `k`. */
  predicate Counts(step: Step, k: string, width: nat, shape: Shape) {
    step.Add? && step.target == k && Widen(step.values, width, shape).Some?
  }

  /** What the step adds to community `k`: its widened values, or nothing. */
  function Part(step: Step, k: string, width: nat, shape: Shape): (v: seq<real>)
    ensures |v| == width
  {
    if Counts(step, k, width, shape) then Widen(step.values, width, shape).value else ZeroVec(width)
  }

  /** The sum of everything the steps add to community `k`, independently
      of the accumulator. */
  function Contribution(steps: seq<Step>, k: string, width: nat, shape: Shape): (v: seq<real>)
    ensures |v| == width
  {
    if |steps| == 0 then ZeroVec(width)
    else Plus(Contribution(steps[..|steps| - 1], k, width, shape), Part(steps[|steps| - 1], k, width, shape))
  }

  /** Rows that never add to community `k` contribute nothing to it. */
  lemma {:induction false} UntouchedZero(steps: seq<Step>, k: string, width: nat, shape: Shape)
    requires !Touched(steps, k, width, shape)
    ensures Contribution(steps, k, width, shape) == ZeroVec(width)
    decreases |steps|
  {
    if |steps| > 0 {
      HitWitness(steps, k, width, shape);
      UntouchedZero(steps[..|steps| - 1], k, width, shape);
      PlusZero(ZeroVec(width));
    }
  }

  /** After the loop, each community holds its initial sums plus the
      contribution of the rows that name it. */
  lemma {:induction false} RunSums(acc: Acc, width: nat, steps: seq<Step>, missing: Missing, shape: Shape, k: string)
    requires Uniform(acc, width) && HasKey(acc, k)
    requires Run(acc, width, steps, missing, shape).Some?
    ensures Get(Run(acc, width, steps, missing, shape).value, k).value.sums
            == Plus(Get(acc, k).value.sums, Contribution(steps, k, width, shape))
    decreases |steps|
  {
    var start := Get(acc, k).value.sums;
    assert |start| == width;
    if |steps| == 0 {
      PlusZero(start);
    } else {
      var init := steps[..|steps| - 1];
      var step := steps[|steps| - 1];
      var a := Run(acc, width, init, missing, shape).value;
      assert Run(acc, width, steps, missing, shape) == Apply(a, width, step, missing, shape);
      RunSums(acc, width, init, missing, shape, k);
      var c := Contribution(init, k, width, shape);
      StepSums(a, width, step, missing, shape, k);
      if Counts(step, k, width, shape) {
        PlusAssoc(start, c, Part(step, k, width, shape));
      } else {
        PlusZero(c);
      }
    }
  }

  /** A community is marked after the loop exactly when it was marked
      before or some row was added to it. */
  lemma {:induction false} RunHit(acc: Acc, width: nat, steps: seq<Step>, missing: Missing, shape: Shape, k: string)
    requires Uniform(acc, width) && HasKey(acc, k)
    requires Run(acc, width, steps, missing, shape).Some?
    ensures Get(Run(acc, width, steps, missing, shape).value, k).value.hit
            <==> Get(acc, k).value.hit || Touched(steps, k, width, shape)
    decreases |steps|
  {
    if |steps| > 0 {
      var init := steps[..|steps| - 1];
      var step := steps[|steps| - 1];
      var a := Run(acc, width, init, missing, shape).value;
      assert Run(acc, width, steps, missing, shape) == Apply(a, width, step, missing, shape);
      RunHit(acc, width, init, missing, shape, k);
      StepSums(a, width, step, missing, shape, k);
      HitWitness(steps, k, width, shape);
    }
  }

  /** One step's effect on community `k`. */
  lemma StepSums(a: Acc, width: nat, step: Step, missing: Missing, shape: Shape, k: string)
    requires Uniform(a, width) && HasKey(a, k)
    requires Apply(a, width, step, missing, shape).Some?
    ensures var before := Get(a, k).value;
            var after := Get(Apply(a, width, step, missing, shape).value, k).value;
            && (Counts(step, k, width, shape) ==> after == Slot(Plus(before.sums, Part(step, k, width, shape)), true))
            && (!Counts(step, k, width, shape) ==> after == before)
  {
    if step.Add? && HasKey(a, step.target) {
      var t := step.target;
      var slot := Get(a, t).value;
      match Widen(step.values, width, shape)
      case None =>
        assert Apply(a, width, step, missing, shape) == Some(a);
      case Some(ws) =>
        var next := Slot(Plus(slot.sums, ws), true);
        assert Apply(a, width, step, missing, shape) == Some(Put(a, t, next));
        if t == k {
          PutGet(a, t, next);
        } else {
          PutOther(a, t, next, k);
        }
    } else {
      assert Apply(a, width, step, missing, shape) == Some(a);
    }
  }

  /** Some step adds a vector to community `k`. */
  predicate Touched(steps: seq<Step>, k: string, width: nat, shape: Shape) {
    exists i | 0 <= i < |steps| :: Counts(steps[i], k, width, shape)
  }

  lemma HitWitness(steps: seq<Step>, k: string, width: nat, shape: Shape)
    requires |steps| > 0
    ensures Touched(steps, k, width, shape)
            <==> Touched(steps[..|steps| - 1], k, width, shape) || Counts(steps[|steps| - 1], k, width, shape)
  {
    var init := steps[..|steps| - 1];
    if Touched(init, k, width, shape) {
      var i :| 0 <= i < |init| && Counts(init[i], k, width, shape);
      assert steps[i] == init[i];
    }
    if Touched(steps, k, width, shape) {
      var i :| 0 <= i < |steps| && Counts(steps[i], k, width, shape);
      if i < |init| {
        assert init[i] == steps[i];
      }
    }
  }
}
