/**
 * The storage behind a string view (`Data<T>`): a handle to one heap
 * allocation, following one of four strategies. `Arc` and `Rc` share the
 * allocation between clones and count the handles that hold it; `Box` and
 * `Cloned` give every clone an allocation of its own. A handle may write to
 * its allocation (`get_mut`) only when no other handle can observe it.
 *
 * The reference count is modelled as a real `strong` counter next to a
 * ghost set of the handles that hold the allocation; the model runs
 * `drop` explicitly where Rust would run it implicitly.
 */
module Data {

  /** The four implementations of `Data<T>`. */
  datatype Strategy = Arc | Rc | Box | Cloned {
    /** Whether clones share one allocation, as the reference-counted pointers do. */
    predicate Shares() {
      this == Arc || this == Rc
    }
  }

  /** One heap allocation holding a value. */
  class Allocation<T> {
    var value: T
    /** The strong count of a reference-counted pointer; 1 for an unshared one. */
    var strong: nat
    /** The live handles that hold this allocation. */
    ghost var holders: set<Handle<T>>

    constructor (v: T)
      ensures value == v && strong == 0 && holders == {}
    {
      value := v;
      strong := 0;
      holders := {};
    }
  }

  /** A `Data<T>` value: a handle to an allocation. */
  class Handle<T> {
    const strategy: Strategy
    const alloc: Allocation<T>

    /**
     * The handle is live: it is counted among its allocation's holders, the
     * count is exact, every holder follows the same strategy, and an
     * unshared allocation has no other holder.
     */
    ghost predicate Valid()
      reads alloc
    {
      && this in alloc.holders
      && alloc.strong == |alloc.holders|
      && (forall h :: h in alloc.holders ==> h.alloc == alloc && h.strategy == strategy)
      && (!strategy.Shares() ==> alloc.holders == {this})
    }

    /** `Data::new`: a handle to a fresh allocation holding `v`. */
    constructor New(strategy: Strategy, v: T)
      ensures Valid() && fresh(alloc)
      ensures this.strategy == strategy && Get() == v
      ensures alloc.holders == {this}
    {
      this.strategy := strategy;
      alloc := new Allocation(v);
      new;
      alloc.holders := {this};
      alloc.strong := 1;
    }

    /** A second handle to the allocation of a reference-counted `source` (the pointer's `clone`). */
    constructor Share(source: Handle<T>)
      requires source.Valid() && source.strategy.Shares()
      modifies source.alloc
      ensures Valid() && source.Valid()
      ensures strategy == source.strategy && alloc == source.alloc
      ensures alloc.holders == old(source.alloc.holders) + {this}
      ensures alloc.value == old(source.alloc.value)
      ensures forall h :: h in alloc.holders ==> h.Valid()
    {
      strategy := source.strategy;
      alloc := source.alloc;
      new;
      alloc.holders := alloc.holders + {this};
      alloc.strong := alloc.strong + 1;
    }

    /** `Data::get`: the value the handle refers to. */
    function Get(): T
      reads alloc
    {
      alloc.value
    }

    /** Whether no other live handle can observe the allocation. */
    ghost predicate Exclusive()
      reads alloc
    {
      alloc.holders == {this}
    }

    /**
     * `Data::get_mut`: write access is granted always for `Box` and
     * `Cloned`, and for `Arc` and `Rc` exactly when the strong count is 1;
     * granted access means no other handle holds the allocation.
     */
    method GetMut() returns (granted: bool)
      requires Valid()
      ensures granted <==> !strategy.Shares() || alloc.strong == 1
      ensures granted <==> Exclusive()
    {
      granted := !strategy.Shares() || alloc.strong == 1;
      if strategy.Shares() && alloc.strong == 1 {
        assert |alloc.holders| == 1 && this in alloc.holders;
        SingletonSet(alloc.holders, this);
      }
    }

    /** A write through the reference `get_mut` granted. */
    method Write(v: T)
      requires Valid() && Exclusive()
      modifies alloc
      ensures Valid() && Exclusive() && Get() == v
      ensures alloc.strong == old(alloc.strong)
    {
      alloc.value := v;
    }

    /**
     * `Clone::clone`: a reference-counted handle shares the allocation and
     * raises the count; `Box` and `Cloned` copy the value into a fresh
     * allocation and leave this one as it was.
     */
    method Clone() returns (h: Handle<T>)
      requires Valid()
      modifies alloc
      ensures fresh(h) && h.Valid() && Valid()
      ensures h.strategy == strategy && h.Get() == old(Get()) && Get() == old(Get())
      ensures strategy.Shares() ==> h.alloc == alloc && alloc.holders == old(alloc.holders) + {h}
      ensures !strategy.Shares() ==> fresh(h.alloc) && unchanged(alloc)
      ensures forall g :: g in alloc.holders ==> g.Valid()
    {
      if strategy.Shares() {
        h := new Handle.Share(this);
      } else {
        h := new Handle.New(strategy, alloc.value);
      }
    }

    /** `Drop::drop`: the handle stops counting towards its allocation; the value is left as it was. */
    method Drop()
      requires Valid()
      modifies alloc
      ensures alloc.holders == old(alloc.holders) - {this}
      ensures alloc.strong == old(alloc.strong) - 1 == |alloc.holders|
      ensures alloc.value == old(alloc.value)
      ensures forall h :: h in alloc.holders ==> h.Valid()
    {
      alloc.holders := alloc.holders - {this};
      alloc.strong := alloc.strong - 1;
    }
  }

  /** A set of one element holding `x` is `{x}`. */
  lemma {:induction false} SingletonSet<T>(s: set<T>, x: T)
    requires |s| == 1 && x in s
    ensures s == {x}
  {
    assert |s - {x}| == 0;
  }

  /** Every holder of a live handle's allocation is live: liveness is a property of the allocation. */
  lemma {:induction false} FellowHolderValid<T>(g: Handle<T>, h: Handle<T>)
    requires g.Valid() && h in g.alloc.holders
    ensures h.Valid() && h.alloc == g.alloc && h.strategy == g.strategy
  {
  }

  /** Two distinct live handles on one allocation: neither may write to it. */
  lemma {:induction false} SharedNotExclusive<T>(a: Handle<T>, b: Handle<T>)
    requires a.Valid() && b.Valid() && a != b && a.alloc == b.alloc
    ensures !a.Exclusive() && !b.Exclusive()
    ensures a.alloc.strong >= 2
  {
    assert {a, b} <= a.alloc.holders;
    assert |{a, b}| == 2;
    SubsetCardinality({a, b}, a.alloc.holders);
  }

  lemma {:induction false} SubsetCardinality<T>(s: set<T>, t: set<T>)
    requires s <= t
    ensures |s| <= |t|
  {
    assert t == s + (t - s);
  }

  /**
   * The behaviour the tests check of every strategy: a new handle returns
   * its value, a granted write is observed, and a clone sees the same value.
   */
  method NewWriteClone<T>(strategy: Strategy, v: T, w: T) returns (original: T, copy: T)
    ensures original == w && copy == w
  {
    var h := new Handle.New(strategy, v);
    assert h.Get() == v;
    var granted := h.GetMut();
    assert granted;
    h.Write(w);
    var c := h.Clone();
    original, copy := h.Get(), c.Get();
  }
}
