/**
 Vectorised CASE: alternatives fill the selected positions that no earlier one filled,
 and the evaluation stops when all are filled.
 */
module CaseEvaluator {
  const DEFAULT_VECTOR_CAPACITY: nat := 2048

  /** A vector of which every position is read, or one with a single value for all. */
  datatype Source<V> = Flat(value: V) | Unflat(values: nat -> V)

  function ValueAt<V>(s: Source<V>, pos: nat): V {
    match s
    case Flat(v) => v
    case Unflat(values) => values(pos)
  }

  /** A condition is true, or false or unknown. */
  datatype Alternative<V> = Alternative(when: Source<bool>, then_: Source<V>)

  /** The row-wise meaning: the value of the first alternative that is true, else the default. */
  function CaseAt<V>(alternatives: seq<Alternative<V>>, default: Source<V>, pos: nat): V {
    if alternatives == [] then ValueAt(default, pos)
    else if ValueAt(alternatives[0].when, pos) then ValueAt(alternatives[0].then_, pos)
    else CaseAt(alternatives[1..], default, pos)
  }

  /** Where a condition is true at a position. */
  predicate TrueAt(when: Source<bool>, pos: nat) {
    (when.Flat? && when.value) || (when.Unflat? && when.values(pos))
  }

  /** The first true alternative decides, by its place, and the default when none is true. */
  lemma {:induction false} CaseFirst<V>(alternatives: seq<Alternative<V>>, default: Source<V>, pos: nat, k: nat)
    requires k <= |alternatives| && forall j | 0 <= j < k :: !TrueAt(alternatives[j].when, pos)
    requires k < |alternatives| ==> TrueAt(alternatives[k].when, pos)
    ensures CaseAt(alternatives, default, pos) == ValueAt(if k < |alternatives| then alternatives[k].then_ else default, pos)
    decreases k
  {
    if k > 0 {
      CaseFirst(alternatives[1..], default, pos, k - 1);
    }
  }

  // ----- selections -----

  ghost predicate Selection(sel: seq<nat>) {
    (forall i | 0 <= i < |sel| :: sel[i] < DEFAULT_VECTOR_CAPACITY) && forall i, j | 0 <= i < j < |sel| :: sel[i] != sel[j]
  }

  function Filter(keep: nat -> bool, sel: seq<nat>): seq<nat> {
    if sel == [] then []
    else Filter(keep, sel[..|sel| - 1]) + (if keep(sel[|sel| - 1]) then [sel[|sel| - 1]] else [])
  }

  lemma {:induction false} FilterMember(keep: nat -> bool, sel: seq<nat>, p: nat)
    ensures p in Filter(keep, sel) <==> p in sel && keep(p)
    ensures |Filter(keep, sel)| <= |sel|
    decreases |sel|
  {
    if sel != [] {
      FilterMember(keep, sel[..|sel| - 1], p);
      assert sel == sel[..|sel| - 1] + [sel[|sel| - 1]];
    }
  }

  function Positions(sel: seq<nat>): set<nat> {
    set i | 0 <= i < |sel| :: sel[i]
  }

  lemma {:induction false} PositionsCount(sel: seq<nat>)
    requires Selection(sel)
    ensures |Positions(sel)| == |sel|
    decreases |sel|
  {
    if sel == [] {
      assert Positions(sel) == {};
    } else {
      var front, last := sel[..|sel| - 1], sel[|sel| - 1];
      PositionsCount(front);
      assert Positions(sel) == Positions(front) + {last};
      assert last !in Positions(front);
    }
  }

  ghost function FilledUpTo(mask: seq<bool>, n: nat): set<nat>
    requires n <= |mask|
  {
    set p | 0 <= p < n && mask[p]
  }

  lemma SubsetOfSameSize(a: set<nat>, b: set<nat>)
    requires a <= b && |a| == |b|
    ensures a == b
  {
    assert |b - a| == |b| - |a|;
  }

  /** As many filled positions as selected ones, all among the selected ones, are all of them. */
  lemma AllFilled(mask: seq<bool>, sel: seq<nat>)
    requires Selection(sel) && |mask| == DEFAULT_VECTOR_CAPACITY && |FilledUpTo(mask, |mask|)| == |sel|
    requires forall p | 0 <= p < |mask| && mask[p] :: p in sel
    ensures forall i | 0 <= i < |sel| :: mask[sel[i]]
  {
    PositionsCount(sel);
    SubsetOfSameSize(FilledUpTo(mask, |mask|), Positions(sel));
    forall i | 0 <= i < |sel|
      ensures mask[sel[i]]
    {
      assert sel[i] in Positions(sel);
    }
  }

  // ----- alternatives -----

  /** After `k` alternatives: filled are selected positions only, each with its value; what the others get is up to the
      alternatives that follow. */
  ghost predicate Progress<V>(alternatives: seq<Alternative<V>>, default: Source<V>, sel: seq<nat>, k: nat, mask: seq<bool>, result: seq<V>)
    requires k <= |alternatives| && |mask| == |result|
  {
    forall p | 0 <= p < |mask| ::
      if mask[p] then p in sel && result[p] == CaseAt(alternatives, default, p)
      else p in sel ==> CaseAt(alternatives, default, p) == CaseAt(alternatives[k..], default, p)
  }

  /** The given positions, as far as they were not filled before, are filled from the source. */
  ghost predicate FilledFrom<V>(positions: seq<nat>, src: Source<V>, mask: seq<bool>, result: seq<V>, mask': seq<bool>, result': seq<V>)
    requires |mask| == |result| == |mask'| == |result'|
  {
    forall p | 0 <= p < |mask| ::
      && mask'[p] == (mask[p] || p in positions)
      && result'[p] == if p in positions && !mask[p] then ValueAt(src, p) else result[p]
  }

  lemma NextAlternative<V>(alternatives: seq<Alternative<V>>, default: Source<V>, k: nat, p: nat)
    requires k < |alternatives|
    ensures CaseAt(alternatives[k..], default, p) ==
            if ValueAt(alternatives[k].when, p) then ValueAt(alternatives[k].then_, p) else CaseAt(alternatives[k + 1..], default, p)
  {
    assert alternatives[k..][1..] == alternatives[k + 1..];
  }

  /** One more alternative, filling the positions at which it is true. */
  lemma AlternativeFills<V>(alternatives: seq<Alternative<V>>, default: Source<V>, sel: seq<nat>, k: nat, mask: seq<bool>, result: seq<V>,
                            positions: seq<nat>, mask': seq<bool>, result': seq<V>)
    requires k < |alternatives| && |mask| == |result| == |mask'| == |result'|
    requires Progress(alternatives, default, sel, k, mask, result)
    requires forall p :: p in positions <==> p in sel && ValueAt(alternatives[k].when, p)
    requires FilledFrom(positions, alternatives[k].then_, mask, result, mask', result')
    ensures Progress(alternatives, default, sel, k + 1, mask', result')
  {
    forall p | 0 <= p < |mask|
      ensures if mask'[p] then p in sel && result'[p] == CaseAt(alternatives, default, p)
              else p in sel ==> CaseAt(alternatives, default, p) == CaseAt(alternatives[k + 1..], default, p)
    {
      NextAlternative(alternatives, default, k, p);
    }
  }

  /** What is left gets the default. */
  lemma DefaultFills<V>(alternatives: seq<Alternative<V>>, default: Source<V>, sel: seq<nat>, mask: seq<bool>, result: seq<V>,
                        mask': seq<bool>, result': seq<V>)
    requires |mask| == |result| == |mask'| == |result'|
    requires Progress(alternatives, default, sel, |alternatives|, mask, result) && FilledFrom(sel, default, mask, result, mask', result')
    ensures forall p | 0 <= p < |mask| && p in sel :: result'[p] == CaseAt(alternatives, default, p)
  {
    assert alternatives[|alternatives|..] == [];
  }

  // ----- the evaluator -----

  class CaseExpressionEvaluator<V(0)> {
    const alternatives: seq<Alternative<V>>
    const default: Source<V>
    /** The positions of the result that are selected. */
    const sel: seq<nat>
    const result: array<V>
    const filledMask: array<bool>

    ghost predicate Valid()
      reads this
    {
      && Selection(sel) && result.Length == DEFAULT_VECTOR_CAPACITY && filledMask.Length == DEFAULT_VECTOR_CAPACITY
      && (result as object) != (filledMask as object)
    }

    constructor (alternatives: seq<Alternative<V>>, default: Source<V>, sel: seq<nat>)
      requires Selection(sel)
      ensures Valid() && fresh(result) && fresh(filledMask)
      ensures this.alternatives == alternatives && this.default == default && this.sel == sel
    {
      this.alternatives, this.default, this.sel := alternatives, default, sel;
      result := new V[DEFAULT_VECTOR_CAPACITY];
      filledMask := new bool[DEFAULT_VECTOR_CAPACITY];
    }

    /** Fills one position unless it is filled. */
    method FillEntry(pos: nat, src: Source<V>)
      requires Valid() && pos < DEFAULT_VECTOR_CAPACITY
      modifies result, filledMask
      ensures filledMask[pos] && (old(filledMask[pos]) ==> result[pos] == old(result[pos]))
      ensures !old(filledMask[pos]) ==> result[pos] == ValueAt(src, pos)
      ensures forall p | 0 <= p < DEFAULT_VECTOR_CAPACITY && p != pos :: filledMask[p] == old(filledMask[p]) && result[p] == old(result[p])
    {
      if filledMask[pos] {
        return;
      }
      filledMask[pos] := true;
      result[pos] := match src
        case Flat(v) => v
        case Unflat(values) => values(pos);
    }

    /** Fills the given positions that are not filled. */
    method FillSelected(positions: seq<nat>, src: Source<V>)
      requires Valid() && forall i | 0 <= i < |positions| :: positions[i] < DEFAULT_VECTOR_CAPACITY
      modifies result, filledMask
      ensures FilledFrom(positions, src, old(filledMask[..]), old(result[..]), filledMask[..], result[..])
    {
      for i := 0 to |positions|
        invariant forall p | 0 <= p < DEFAULT_VECTOR_CAPACITY :: filledMask[p] == (old(filledMask[p]) || p in positions[..i])
        invariant forall p | 0 <= p < DEFAULT_VECTOR_CAPACITY ::
                    result[p] == if p in positions[..i] && !old(filledMask[p]) then ValueAt(src, p) else old(result[p])
      {
        assert positions[..i + 1] == positions[..i] + [positions[i]];
        FillEntry(positions[i], src);
      }
      assert positions[..|positions|] == positions;
    }

    method CountFilled() returns (count: nat)
      requires Valid()
      ensures count == |FilledUpTo(filledMask[..], DEFAULT_VECTOR_CAPACITY)|
    {
      count := 0;
      assert FilledUpTo(filledMask[..], 0) == {};
      for p := 0 to DEFAULT_VECTOR_CAPACITY
        invariant count == |FilledUpTo(filledMask[..], p)|
      {
        assert FilledUpTo(filledMask[..], p + 1) == FilledUpTo(filledMask[..], p) + (if filledMask[p] then {p} else {});
        if filledMask[p] {
          count := count + 1;
        }
      }
    }

    /** The positions at which a condition is true: all of them or none when it is flat. */
    method SelectWhen(when: Source<bool>) returns (whenSel: seq<nat>)
      ensures whenSel == Filter((p: nat) => ValueAt(when, p), sel)
    {
      whenSel := [];
      for i := 0 to |sel|
        invariant whenSel == Filter((p: nat) => ValueAt(when, p), sel[..i])
      {
        assert sel[..i + 1][..i] == sel[..i];
        if ValueAt(when, sel[i]) {
          whenSel := whenSel + [sel[i]];
        }
      }
      assert sel[..|sel|] == sel;
    }

    /** Every selected position gets what the row-wise CASE gives; no other position changes. */
    method Evaluate()
      requires Valid()
      modifies result, filledMask
      ensures forall i | 0 <= i < |sel| :: result[sel[i]] == CaseAt(alternatives, default, sel[i])
      ensures forall p | 0 <= p < DEFAULT_VECTOR_CAPACITY && p !in sel :: result[p] == old(result[p])
    {
      ResetMask();
      for k := 0 to |alternatives|
        invariant Progress(alternatives, default, sel, k, filledMask[..], result[..])
        invariant forall p | 0 <= p < DEFAULT_VECTOR_CAPACITY && p !in sel :: result[p] == old(result[p])
      {
        var done := EvaluateAlternative(k);
        if done {
          return;
        }
      }
      ghost var mask, before := filledMask[..], result[..];
      FillSelected(sel, default);
      DefaultFills(alternatives, default, sel, mask, before, filledMask[..], result[..]);
      SelectedHave(result[..]);
    }

    /** One alternative; done when it filled the last position. */
    method EvaluateAlternative(k: nat) returns (done: bool)
      requires Valid() && k < |alternatives| && Progress(alternatives, default, sel, k, filledMask[..], result[..])
      modifies result, filledMask
      ensures Progress(alternatives, default, sel, k + 1, filledMask[..], result[..])
      ensures forall p | 0 <= p < DEFAULT_VECTOR_CAPACITY && p !in sel :: result[p] == old(result[p])
      ensures done ==> forall i | 0 <= i < |sel| :: result[sel[i]] == CaseAt(alternatives, default, sel[i])
    {
      var alternative := alternatives[k];
      var whenSel := SelectWhen(alternative.when);
      WhenMembers(alternative.when);
      ghost var mask, before := filledMask[..], result[..];
      if |whenSel| == 0 {
        AlternativeFills(alternatives, default, sel, k, mask, before, whenSel, filledMask[..], result[..]);
        return false;
      }
      if alternative.when.Flat? {
        FillSelected(sel, alternative.then_);
        AlternativeFills(alternatives, default, sel, k, mask, before, sel, filledMask[..], result[..]);
      } else {
        FillSelected(whenSel, alternative.then_);
        AlternativeFills(alternatives, default, sel, k, mask, before, whenSel, filledMask[..], result[..]);
      }
      var count := CountFilled();
      done := count == |sel|;
      if done {
        AllFilled(filledMask[..], sel);
      }
    }

    method ResetMask()
      requires Valid()
      modifies filledMask
      ensures Progress(alternatives, default, sel, 0, filledMask[..], result[..])
    {
      for p := 0 to DEFAULT_VECTOR_CAPACITY
        invariant forall q | 0 <= q < p :: !filledMask[q]
      {
        filledMask[p] := false;
      }
      assert alternatives[0..] == alternatives;
    }

    lemma WhenMembers(when: Source<bool>)
      requires Valid()
      ensures var whenSel := Filter((p: nat) => ValueAt(when, p), sel);
              && (forall p :: p in whenSel <==> p in sel && ValueAt(when, p))
              && (forall i | 0 <= i < |whenSel| :: whenSel[i] < DEFAULT_VECTOR_CAPACITY)
              && (when.Flat? && whenSel != [] ==> when.value)
    {
      var whenSel := Filter((p: nat) => ValueAt(when, p), sel);
      forall p
        ensures p in whenSel <==> p in sel && ValueAt(when, p)
      {
        FilterMember((p: nat) => ValueAt(when, p), sel, p);
      }
      forall i | 0 <= i < |whenSel|
        ensures whenSel[i] < DEFAULT_VECTOR_CAPACITY && (when.Flat? ==> when.value)
      {
        assert whenSel[i] in whenSel;
      }
      if whenSel != [] {
        assert whenSel[0] < DEFAULT_VECTOR_CAPACITY;
      }
    }

    lemma SelectedHave(values: seq<V>)
      requires Valid() && |values| == DEFAULT_VECTOR_CAPACITY
      requires forall p | 0 <= p < |values| && p in sel :: values[p] == CaseAt(alternatives, default, p)
      ensures forall i | 0 <= i < |sel| :: values[sel[i]] == CaseAt(alternatives, default, sel[i])
    {
    }
  }

  // ----- selecting -----

  /** The positions of `sel` of which the value at the same index of `resultSel` is true. */
  function Chosen(sel: seq<nat>, resultSel: seq<nat>, isTrue: nat -> bool): (r: seq<nat>)
    requires |sel| <= |resultSel|
    ensures |r| <= |sel|
  {
    if sel == [] then []
    else
      var i := |sel| - 1;
      Chosen(sel[..i], resultSel, isTrue) + (if isTrue(resultSel[i]) then [sel[i]] else [])
  }

  /** On the same selection, that is a stable filter. */
  lemma {:induction false} ChosenIsFilter(sel: seq<nat>, resultSel: seq<nat>, isTrue: nat -> bool)
    requires |sel| <= |resultSel| && sel == resultSel[..|sel|]
    ensures Chosen(sel, resultSel, isTrue) == Filter(isTrue, sel)
    decreases |sel|
  {
    if sel != [] {
      ChosenIsFilter(sel[..|sel| - 1], resultSel, isTrue);
    }
  }

  /** Compacts the selection buffer in place: the positions that stay are moved to its front, in order. */
  method SelectInternal(buffer: array<nat>, size: nat, resultSel: seq<nat>, isTrue: nat -> bool) returns (numSelectedValues: nat)
    requires size <= buffer.Length && size <= |resultSel|
    modifies buffer
    ensures numSelectedValues == |Chosen(old(buffer[..size]), resultSel, isTrue)|
    ensures buffer[..numSelectedValues] == Chosen(old(buffer[..size]), resultSel, isTrue)
    ensures forall i | size <= i < buffer.Length :: buffer[i] == old(buffer[i])
  {
    ghost var sel := buffer[..size];
    numSelectedValues := 0;
    for i := 0 to size
      invariant numSelectedValues <= i && numSelectedValues == |Chosen(sel[..i], resultSel, isTrue)|
      invariant buffer[..numSelectedValues] == Chosen(sel[..i], resultSel, isTrue)
      invariant forall k | i <= k < buffer.Length :: buffer[k] == old(buffer[k])
    {
      assert sel[..i + 1][..i] == sel[..i] && sel[i] == buffer[i];
      buffer[numSelectedValues] := buffer[i];
      if isTrue(resultSel[i]) {
        numSelectedValues := numSelectedValues + 1;
      }
    }
    assert sel[..size] == sel;
  }
}
