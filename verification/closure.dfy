/**
 * Partial application in the script interpreter: a closure owns a reference
 * to a base callable and a list of bound arguments that are prepended to the
 * arguments of every call.
 *
 * Callables live in a heap of reference-counted objects; a closure refers to
 * its base by index, so cloning a closure copies the bound list and shares
 * the base instead of duplicating it.
 */
module Closure {

  /** A closure over the callable with index `base` and its bound arguments, oldest first. */
  datatype Closure<V> = Closure(base: nat, bound: seq<V>)

  /** What the base callable receives from a call through a closure. */
  datatype Invocation<V> = Invocation(callee: nat, args: seq<V>, wantResult: bool)

  /**
   * The objects alive: `callables` base callables with indexes 0..callables-1,
   * and the closures, a closure's index being its position.
   */
  datatype Heap<V> = Heap(callables: nat, closures: seq<Closure<V>>)

  predicate ValidHeap<V>(h: Heap<V>) {
    forall i | 0 <= i < |h.closures| :: h.closures[i].base < h.callables
  }

  /** Allocates a new base callable and returns its index. */
  function NewCallable<V>(h: Heap<V>): (r: (Heap<V>, nat))
    ensures r.0.callables == h.callables + 1 && r.0.closures == h.closures
    ensures r.1 == h.callables
  {
    (h.(callables := h.callables + 1), h.callables)
  }

  /**
   * A fresh closure whose base is the existing callable `base`; the closure
   * adopts the base, so no callable is created.
   */
  function NewClosure<V>(h: Heap<V>, base: nat): (r: (Heap<V>, nat))
    requires base < h.callables
    ensures r.0.callables == h.callables
    ensures |r.0.closures| == |h.closures| + 1 && r.1 == |h.closures|
    ensures r.0.closures[r.1] == Closure(base, [])
    ensures forall i | 0 <= i < |h.closures| :: r.0.closures[i] == h.closures[i]
  {
    (h.(closures := h.closures + [Closure(base, [])]), |h.closures|)
  }

  /**
   * Cloning closure `id`: a new, distinct closure with the same base and a
   * copy of the bound list. The number of callables does not change.
   */
  function CloneClosure<V>(h: Heap<V>, id: nat): (r: (Heap<V>, nat))
    requires id < |h.closures|
    ensures r.0.callables == h.callables
    ensures r.1 != id && r.1 == |h.closures| && |r.0.closures| == |h.closures| + 1
    ensures r.0.closures[r.1].base == h.closures[id].base
    ensures r.0.closures[r.1].bound == h.closures[id].bound
    ensures forall i | 0 <= i < |h.closures| :: r.0.closures[i] == h.closures[i]
  {
    (h.(closures := h.closures + [h.closures[id]]), |h.closures|)
  }

  /** Allocation keeps every closure's base reference valid. */
  lemma HeapStaysValid<V>(h: Heap<V>, base: nat, id: nat)
    requires ValidHeap(h)
    ensures ValidHeap(NewCallable(h).0)
    ensures base < h.callables ==> ValidHeap(NewClosure(h, base).0)
    ensures id < |h.closures| ==> ValidHeap(CloneClosure(h, id).0)
  {
  }

  // ---- Binding arguments ----

  /** Binds one more argument after those already bound. */
  function AddArgument<V>(c: Closure<V>, v: V): (r: Closure<V>)
    ensures r.base == c.base && |r.bound| == |c.bound| + 1
    ensures r.bound[..|c.bound|] == c.bound && r.bound[|c.bound|] == v
  {
    Closure(c.base, c.bound + [v])
  }

  /** Binds the last n values of seg, in their order in seg. */
  function AddArgumentsFrom<V>(c: Closure<V>, seg: seq<V>, n: nat): (r: Closure<V>)
    requires n <= |seg|
    ensures r.base == c.base && |r.bound| == |c.bound| + n
    ensures r.bound[..|c.bound|] == c.bound
    ensures forall i | |c.bound| <= i < |r.bound| :: r.bound[i] == seg[|seg| - n + (i - |c.bound|)]
  {
    Closure(c.base, c.bound + seg[|seg| - n..])
  }

  /** Binds each of xs in turn. */
  function AddArguments<V>(c: Closure<V>, xs: seq<V>): (r: Closure<V>)
    ensures r.base == c.base && r.bound == c.bound + xs
    decreases |xs|
  {
    if xs == [] then
      assert c.bound + xs == c.bound;
      c
    else
      assert c.bound + xs == (c.bound + [xs[0]]) + xs[1..];
      AddArguments(AddArgument(c, xs[0]), xs[1..])
  }

  /** Binding the last n values of a segment binds them one by one in order. */
  lemma AddArgumentsFromIsSequential<V>(c: Closure<V>, seg: seq<V>, n: nat)
    requires n <= |seg|
    ensures AddArgumentsFrom(c, seg, n) == AddArguments(c, seg[|seg| - n..])
  {
  }

  // ---- Calling ----

  /** Calls the base with the bound arguments first, then args, forwarding wantResult. */
  function Call<V>(c: Closure<V>, args: seq<V>, wantResult: bool): (inv: Invocation<V>)
    ensures inv.callee == c.base && inv.wantResult == wantResult
    ensures |inv.args| == |c.bound| + |args|
    ensures inv.args[..|c.bound|] == c.bound && inv.args[|c.bound|..] == args
  {
    Invocation(c.base, c.bound + args, wantResult)
  }

  /**
   * Binding xs and then calling with args is the same call as calling the
   * unbound closure with xs followed by args.
   */
  lemma {:induction false} CallAfterBinding<V>(c: Closure<V>, xs: seq<V>, args: seq<V>, wantResult: bool)
    ensures Call(AddArguments(c, xs), args, wantResult) == Call(c, xs + args, wantResult)
  {
    assert (c.bound + xs) + args == c.bound + (xs + args);
  }

  // ---- Dimensions ----

  /**
   * The apparent dimensions: which == 0 is the number of arguments still
   * wanted, the base's count less the bound ones and never negative; for
   * which > 0 the base is asked about dimension which + (number bound).
   */
  function Dimension<V>(c: Closure<V>, baseDim: int -> int, which: nat): (d: int)
    ensures which == 0 ==> d >= 0 && d >= baseDim(0) - |c.bound|
    ensures which == 0 && baseDim(0) >= |c.bound| ==> d + |c.bound| == baseDim(0)
  {
    if which == 0 then
      if baseDim(0) > |c.bound| then baseDim(0) - |c.bound| else 0
    else baseDim(which + |c.bound|)
  }

  /** A closure binding nothing reports the base's own dimensions. */
  lemma UnboundDimensions<V>(c: Closure<V>, baseDim: int -> int, which: nat)
    requires c.bound == [] && baseDim(0) >= 0
    ensures Dimension(c, baseDim, which) == baseDim(which)
  {
  }

  /**
   * Binding one more argument lowers dimension 0 by one (not below zero) and
   * shifts every other dimension by one.
   */
  lemma BindShiftsDimensions<V>(c: Closure<V>, v: V, baseDim: int -> int, which: nat)
    ensures Dimension(AddArgument(c, v), baseDim, 0) == if Dimension(c, baseDim, 0) > 0 then Dimension(c, baseDim, 0) - 1 else 0
    ensures which > 0 ==> Dimension(AddArgument(c, v), baseDim, which) == Dimension(c, baseDim, which + 1)
  {
  }

  // ---- The test callable's scenario ----

  /** The test callable: 7 arguments, and 5 * which for the other dimensions. */
  function TestDimension(which: int): int {
    if which == 0 then 7 else 5 * which
  }

  /**
   * The callable's dimensions 0, 1 and 7 are 7, 5 and 35 while nothing is
   * bound; after binding 3 and "zz" they are 5, 15 and 35 for 0, 1 and 5;
   * after also binding the last two of [999, 42, true] they are 3, 25 and 35
   * for 0, 1 and 3, and a call with 1, 9, 5 passes 3, "zz", 42, true, 1, 9, 5.
   */
  lemma TestScenario<V>(h: Heap<V>, three: V, zz: V, a: seq<V>, args: seq<V>)
    requires |a| == 3 && |args| == 3
    ensures var (h1, b) := NewCallable(h);
      var (h2, id) := NewClosure(h1, b);
      var c0 := h2.closures[id];
      var c2 := AddArgument(AddArgument(c0, three), zz);
      var c4 := AddArgumentsFrom(c2, a, 2);
      && h2.callables == h.callables + 1
      && CloneClosure(h2, id).0.callables == h2.callables
      && Dimension(c0, TestDimension, 0) == 7 && Dimension(c0, TestDimension, 1) == 5 && Dimension(c0, TestDimension, 7) == 35
      && Dimension(c2, TestDimension, 0) == 5 && Dimension(c2, TestDimension, 1) == 15 && Dimension(c2, TestDimension, 5) == 35
      && Dimension(c4, TestDimension, 0) == 3 && Dimension(c4, TestDimension, 1) == 25 && Dimension(c4, TestDimension, 3) == 35
      && Call(c0, args, true).args == args
      && Call(c4, args, true) == Invocation(b, [three, zz, a[1], a[2]] + args, true)
  {
  }
}
