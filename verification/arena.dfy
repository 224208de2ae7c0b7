/**
 * The bump allocator of arena.hpp.
 *
 * An arena is a buffer at address `base` (0 for an unbound arena) of `cap`
 * bytes, of which the first `used` are handed out. Addresses are naturals;
 * the pointer arithmetic of `allocate` is done modulo 2^64 exactly as the
 * source's `uintptr_t` arithmetic, and the mask `& ~(align - 1)` is rounding
 * down to a multiple of `align`, which is what it computes for the power-of-two
 * alignments (`alignof`) every caller passes.
 */
module Arenas {

  import opened Errors
  import opened NumberTheory

  const WORD: nat := 0x1_0000_0000_0000_0000

  predicate IsPow2(n: nat)
    decreases n
  {
    n == 1 || (n > 1 && n % 2 == 0 && IsPow2(n / 2))
  }

  datatype Arena = Arena(base: nat, cap: nat, used: nat)
  {
    /** A buffer lies inside the address space and `used` never exceeds it. */
    predicate Valid() {
      base + cap < WORD && used <= cap
    }

    /** Arena::mark */
    function Mark(): nat { used }
  }

  /** Arena(): unbound, nothing to hand out. */
  const Unbound := Arena(0, 0, 0)

  /** Arena::reset(buffer, capacity): rebind and forget every allocation. */
  function Reset(base: nat, cap: nat): (a: Arena)
    requires base + cap < WORD
    ensures a.Valid() && a.used == 0 && a.base == base && a.cap == cap
  {
    Arena(base, cap, 0)
  }

  /** Arena::clear */
  function Clear(a: Arena): (r: Arena)
    requires a.Valid()
    ensures r.Valid() && r.used == 0 && r.base == a.base && r.cap == a.cap
  {
    a.(used := 0)
  }

  /** Arena::rewind: only moves `used` backwards; a mark past `used` is ignored. */
  function Rewind(a: Arena, mark: nat): (r: Arena)
    requires a.Valid()
    ensures r.Valid() && r.base == a.base && r.cap == a.cap
    ensures mark <= a.used ==> r.used == mark
    ensures mark > a.used ==> r == a
    ensures r.used <= a.used
  {
    if mark <= a.used then a.(used := mark) else a
  }

  /** Unsigned 64-bit wrap-around of a sum or difference of two addresses. */
  function Wrap(x: int): (r: nat)
    requires -(WORD as int) < x < 2 * WORD
    ensures r < WORD && (r == x || r == x - WORD || r == x + WORD)
  {
    if x >= WORD then x - WORD else if x < 0 then x + WORD else x
  }

  /** Largest multiple of `align` not above `x` (the mask `x & ~(align - 1)`). */
  function AlignDown(x: nat, align: nat): (r: nat)
    requires align >= 1
    ensures r <= x && x - r < align && r % align == 0
  {
    var q := x / align;
    assert x - x % align == align * q;
    MultipleDivides(align, q);
    x - x % align
  }

  /** The successful outcome of an allocation: the address and the new state. */
  datatype Allocation = Allocation(addr: nat, arena: Arena)

  /**
   * Arena::allocate(size, align). Unbound arenas, zero capacity and zero size
   * give no memory; align 0 means 1. The start `base + used` is rounded up to
   * the alignment, and the block is refused (leaving the arena as it was)
   * when its end wraps around the address space or passes the capacity.
   */
  function Allocate(a: Arena, size: nat, align: nat): (r: Option<Allocation>)
    requires a.Valid() && size < WORD && align < WORD
    requires align == 0 || IsPow2(align)
    ensures a.base == 0 || a.cap == 0 || size == 0 ==> r.None?
    ensures r.Some? ==> r.value.arena.Valid()
    ensures r.Some? ==> r.value.arena.base == a.base && r.value.arena.cap == a.cap
    ensures r.Some? ==> r.value.arena.used == r.value.addr + size - a.base
    ensures r.Some? ==> r.value.addr % (if align == 0 then 1 else align) == 0
  {
    if a.base == 0 || a.cap == 0 || size == 0 then None
    else
      var al := if align == 0 then 1 else align;
      var cur := a.base + a.used;
      var aligned := AlignDown(Wrap(cur + (al - 1)), al);
      var end := Wrap(aligned + size);
      if end < aligned then None
      else
        var newUsed := Wrap(end - a.base);
        if newUsed > a.cap then None
        else
          assert end >= a.base;
          Some(Allocation(aligned, a.(used := newUsed)))
  }

  /** Smallest multiple of `align` not below `x`. */
  function AlignUp(x: nat, align: nat): (r: nat)
    requires align >= 1
    ensures r >= x && r - x < align && r % align == 0
  {
    AlignDown(x + (align - 1), align)
  }

  /**
   * Below the top of the address space (the block fits before 2^64 even after
   * rounding up), allocation succeeds exactly when the aligned block ends
   * within the capacity, places the block at the aligned current end, and
   * never moves `used` backwards.
   */
  lemma {:induction false} AllocateExact(a: Arena, size: nat, align: nat)
    requires a.Valid() && size < WORD && align < WORD
    requires align == 0 || IsPow2(align)
    requires a.base > 0 && a.cap > 0 && size > 0
    requires a.base + a.cap + (if align == 0 then 1 else align) <= WORD
    ensures var start := AlignUp(a.base + a.used, if align == 0 then 1 else align);
            (Allocate(a, size, align).Some? <==> start + size <= a.base + a.cap) &&
            (Allocate(a, size, align).Some? ==>
               Allocate(a, size, align).value.addr == start &&
               Allocate(a, size, align).value.arena.used >= a.used)
  {
    var al := if align == 0 then 1 else align;
    var cur := a.base + a.used;
    var aligned := AlignDown(cur + (al - 1), al);
    assert aligned == AlignUp(cur, al);
  }

  /** The block handed out lies inside the buffer, after everything handed out before. */
  lemma AllocateInside(a: Arena, size: nat, align: nat)
    requires a.Valid() && size < WORD && align < WORD
    requires align == 0 || IsPow2(align)
    requires a.base + a.cap + (if align == 0 then 1 else align) <= WORD
    ensures var r := Allocate(a, size, align);
            r.Some? ==> a.base + a.used <= r.value.addr &&
                        r.value.addr + size <= a.base + a.cap
  {
    if a.base > 0 && a.cap > 0 && size > 0 {
      AllocateExact(a, size, align);
    }
  }

  /** Away from the top of the address space, `used` only grows. */
  lemma AllocateGrows(a: Arena, size: nat, align: nat)
    requires a.Valid() && size < WORD && align < WORD
    requires align == 0 || IsPow2(align)
    ensures var r := Allocate(a, size, align);
            r.Some? && a.base + a.cap + (if align == 0 then 1 else align) <= WORD ==>
              r.value.arena.used >= a.used
  {
    if a.base > 0 && a.cap > 0 && size > 0 && a.base + a.cap + (if align == 0 then 1 else align) <= WORD {
      AllocateExact(a, size, align);
    }
  }

  // ---------------------------------------------------------------------
  // Scopes
  // ---------------------------------------------------------------------

  /** ArenaScope: the mark taken at construction and whether commit() was called. */
  datatype Scope = Scope(mark: nat, active: bool)

  function BeginScope(a: Arena): (s: Scope)
    ensures s.mark == a.used && s.active
  {
    Scope(a.Mark(), true)
  }

  function Commit(s: Scope): (r: Scope)
    ensures r.mark == s.mark && !r.active
  {
    s.(active := false)
  }

  /**
   * ~ArenaScope: an uncommitted scope rewinds to its mark. The debug assertion
   * that the arena was not rewound past the mark is a precondition.
   */
  function EndScope(s: Scope, a: Arena): (r: Arena)
    requires a.Valid() && (s.active ==> a.used >= s.mark)
    ensures r.Valid() && r.base == a.base && r.cap == a.cap
    ensures s.active ==> r.used == s.mark
    ensures !s.active ==> r == a
  {
    if !s.active then a else Rewind(a, s.mark)
  }

  /** Allocations inside an abandoned scope leave no trace. */
  lemma {:induction false} ScopeRollsBack(a: Arena, size: nat, align: nat)
    requires a.Valid() && size < WORD && align < WORD
    requires align == 0 || IsPow2(align)
    requires a.base + a.cap + (if align == 0 then 1 else align) <= WORD
    ensures var s := BeginScope(a);
            var after := match Allocate(a, size, align)
                         case Some(al) => al.arena
                         case None => a;
            EndScope(s, after) == a
  {
    if a.base > 0 && a.cap > 0 && size > 0 {
      AllocateExact(a, size, align);
    }
  }

  /** ArenaScratchScope: entering clears the arena. */
  function EnterScratch(a: Arena): (r: Arena)
    requires a.Valid()
    ensures r.Valid() && r.used == 0 && r.cap == a.cap && r.base == a.base
  {
    Clear(a)
  }
}
