/** The TCP prober's source-port allocator: a 32-bit cursor walking a reserved slice of the port space
    (internal/probe/probe_tcp_unix.go). */
module PortAllocator {
  import opened Prelude
  import Modular

  /** The prober's reserved slice of the port space. */
  datatype Slice = Slice(base: nat, range: nat) {
    ghost predicate Valid() { range >= 1 && base + range <= 0x1_0000 }
  }

  function Slot(sl: Slice, c: nat): Uint16
    requires sl.Valid()
  {
    sl.base + c % sl.range
  }

  function Bump(c: Uint32): Uint32 { (c + 1) % TWO_TO_THE_32 }

  datatype Found = Found(port: Option<Uint16>, cursor: Uint32)

  /** Tries the next slots in turn and stops at the first one that is not in flight. */
  function NextSrcPort(sl: Slice, cursor: Uint32, busy: set<Uint16>, tries: nat): Found
    requires sl.Valid()
    decreases tries
  {
    if tries == 0 then Found(None, cursor)
    else if Slot(sl, cursor) !in busy then Found(Some(Slot(sl, cursor)), Bump(cursor))
    else NextSrcPort(sl, Bump(cursor), busy, tries - 1)
  }

  /** How many slots such a call looks at. */
  function Tries(sl: Slice, cursor: Uint32, busy: set<Uint16>, tries: nat): (t: nat)
    requires sl.Valid()
    ensures t <= tries
    decreases tries
  {
    if tries == 0 then 0
    else if Slot(sl, cursor) !in busy then 1
    else 1 + Tries(sl, Bump(cursor), busy, tries - 1)
  }

  // ------------------------------------------------------------------
  // The walk as an unbounded sequence of slots
  // ------------------------------------------------------------------

  /** The slot under the k-th position of a cursor that never wrapped. */
  function At(sl: Slice, k: nat): Uint16
    requires sl.Valid()
  {
    Slot(sl, k % TWO_TO_THE_32)
  }

  ghost predicate BusyFromTo(sl: Slice, busy: set<Uint16>, from: nat, until: nat)
    requires sl.Valid()
  {
    forall k | from <= k < until :: At(sl, k) in busy
  }

  /** The slots under a stretch of positions. */
  function Walked(sl: Slice, from: nat, until: nat): set<Uint16>
    requires sl.Valid()
    decreases until
  {
    if until <= from then {} else Walked(sl, from, until - 1) + {At(sl, until - 1)}
  }

  /** What one call found and how far it moved the cursor, wherever the cursor stands. */
  ghost predicate Scanned(sl: Slice, k: nat, busy: set<Uint16>, tries: nat, f: Found, t: nat)
    requires sl.Valid()
  {
    && t <= tries && f.cursor == (k + t) % TWO_TO_THE_32
    && match f.port
       case None => t == tries && BusyFromTo(sl, busy, k, k + tries)
       case Some(p) => t >= 1 && p == At(sl, k + t - 1) && p !in busy && BusyFromTo(sl, busy, k, k + t - 1)
  }

  lemma BumpWraps(k: nat)
    ensures Bump(k % TWO_TO_THE_32) == (k + 1) % TWO_TO_THE_32
  {
  }

  /** The allocator takes the first free slot in cursor order, and fails only after range tries. */
  lemma {:induction false} NextSrcPortMeaning(sl: Slice, k: nat, busy: set<Uint16>, tries: nat)
    requires sl.Valid()
    ensures Scanned(sl, k, busy, tries, NextSrcPort(sl, k % TWO_TO_THE_32, busy, tries),
                    Tries(sl, k % TWO_TO_THE_32, busy, tries))
    decreases tries
  {
    hide Slot, Bump;
    BumpWraps(k);
    if tries != 0 && At(sl, k) in busy {
      NextSrcPortMeaning(sl, k + 1, busy, tries - 1);
    }
  }

  lemma {:induction false} WalkedMeaning(sl: Slice, from: nat, until: nat)
    requires sl.Valid()
    ensures forall p :: p in Walked(sl, from, until) <==> exists k :: from <= k < until && At(sl, k) == p
    decreases until
  {
    hide At;
    if until > from {
      WalkedMeaning(sl, from, until - 1);
      forall p
        ensures p in Walked(sl, from, until) <==> exists k :: from <= k < until && At(sl, k) == p
      {
        if p == At(sl, until - 1) {
          assert from <= until - 1 < until && At(sl, until - 1) == p;
        }
      }
    }
  }

  lemma WalkedHas(sl: Slice, from: nat, until: nat, k: nat)
    requires sl.Valid() && from <= k < until
    ensures At(sl, k) in Walked(sl, from, until)
  {
    hide At;
    WalkedMeaning(sl, from, until);
  }

  lemma WalkedSplit(sl: Slice, from: nat, mid: nat, until: nat)
    requires sl.Valid() && from <= mid <= until
    ensures Walked(sl, from, until) == Walked(sl, from, mid) + Walked(sl, mid, until)
  {
    hide At, Walked;
    WalkedMeaning(sl, from, mid);
    WalkedMeaning(sl, mid, until);
    WalkedMeaning(sl, from, until);
    assert forall p :: p in Walked(sl, from, until) <==> p in Walked(sl, from, mid) || p in Walked(sl, mid, until);
  }

  lemma BusyIsWalked(sl: Slice, busy: set<Uint16>, from: nat, until: nat)
    requires sl.Valid()
    ensures BusyFromTo(sl, busy, from, until) <==> Walked(sl, from, until) <= busy
  {
    hide At, Walked;
    WalkedMeaning(sl, from, until);
    if Walked(sl, from, until) <= busy {
      forall k | from <= k < until
        ensures At(sl, k) in busy
      {
        assert At(sl, k) in Walked(sl, from, until);
      }
    }
  }

  // ------------------------------------------------------------------
  // The seam: where the 32-bit cursor wraps
  // ------------------------------------------------------------------

  /** No walk before this position notices the wrap of the cursor: the range divides 2^32, or the walk
      ends first. */
  predicate Seamless(sl: Slice, until: nat)
    requires sl.Valid()
  {
    TWO_TO_THE_32 % sl.range == 0 || until <= TWO_TO_THE_32
  }

  lemma BeforeTheSeam(sl: Slice, until: nat)
    requires sl.Valid() && until <= TWO_TO_THE_32
    ensures Seamless(sl, until)
  {
  }

  lemma PlainAt(sl: Slice, k: nat)
    requires sl.Valid() && Seamless(sl, k + 1)
    ensures At(sl, k) == Slot(sl, k)
  {
    if k >= TWO_TO_THE_32 {
      Modular.DividingModulus(k, TWO_TO_THE_32, sl.range);
    }
  }

  /** Without a seam a slot comes round after exactly one turn. */
  lemma SlotsDiffer(sl: Slice, a: nat, b: nat)
    requires sl.Valid() && a < b < a + sl.range && Seamless(sl, b + 1)
    ensures At(sl, a) != At(sl, b)
  {
    PlainAt(sl, a);
    PlainAt(sl, b);
    Modular.ModAdd(a, b - a, sl.range);
  }

  lemma SameSlotAgain(sl: Slice, a: nat)
    requires sl.Valid() && Seamless(sl, a + sl.range + 1)
    ensures At(sl, a) == At(sl, a + sl.range)
  {
    PlainAt(sl, a);
    PlainAt(sl, a + sl.range);
    Modular.AddModulus(a, sl.range);
  }

  lemma SlotReached(sl: Slice, from: nat, p: nat) returns (k: nat)
    requires sl.Valid() && sl.base <= p < sl.base + sl.range && Seamless(sl, from + sl.range)
    ensures from <= k < from + sl.range && At(sl, k) == p
  {
    var r, x := sl.range, p - sl.base;
    var m := from % r;
    var d := if m <= x then x - m else x - m + r;
    Modular.ModAdd(from, d, r);
    k := from + d;
    PlainAt(sl, k);
  }

  predicate InSlice(sl: Slice, p: Uint16) { sl.base <= p < sl.base + sl.range }

  function AllSlots(sl: Slice): (s: set<Uint16>)
    requires sl.Valid()
    ensures |s| == sl.range
    ensures forall p :: p in s <==> InSlice(sl, p)
  {
    FirstSlots(sl, sl.range)
  }

  function FirstSlots(sl: Slice, n: nat): (s: set<Uint16>)
    requires sl.Valid() && n <= sl.range
    ensures |s| == n && forall p :: p in s <==> sl.base <= p < sl.base + n
  {
    if n == 0 then {} else FirstSlots(sl, n - 1) + {sl.base + n - 1}
  }

  lemma {:induction false} WalkedInSlice(sl: Slice, from: nat, until: nat)
    requires sl.Valid()
    ensures Walked(sl, from, until) <= AllSlots(sl)
    decreases until
  {
    if until > from {
      WalkedInSlice(sl, from, until - 1);
    }
  }

  /** A walk visits at most one slot a step, and fewer when it comes back to one. */
  lemma {:induction false} WalkedCard(sl: Slice, from: nat, until: nat)
    requires sl.Valid() && from <= until
    ensures |Walked(sl, from, until)| <= until - from
    ensures forall i, j | from <= i < j < until && At(sl, i) == At(sl, j) :: |Walked(sl, from, until)| < until - from
    decreases until
  {
    hide At;
    if until > from {
      WalkedCard(sl, from, until - 1);
      forall i, j | from <= i < j < until && At(sl, i) == At(sl, j)
        ensures |Walked(sl, from, until)| < until - from
      {
        if j == until - 1 {
          WalkedHas(sl, from, until - 1, i);
          assert Walked(sl, from, until) == Walked(sl, from, until - 1);
        }
      }
    }
  }

  lemma FullTurnIsAll(sl: Slice, from: nat)
    requires sl.Valid() && Seamless(sl, from + sl.range)
    ensures Walked(sl, from, from + sl.range) == AllSlots(sl)
  {
    hide At, Walked, Seamless;
    WalkedInSlice(sl, from, from + sl.range);
    forall p | p in AllSlots(sl)
      ensures p in Walked(sl, from, from + sl.range)
    {
      var k := SlotReached(sl, from, p);
      WalkedHas(sl, from, from + sl.range, k);
    }
  }

  /** Just before the seam: the slots of an unfinished turn, the last of them number 2^32 % range - 1. */
  lemma BeforeSeam(sl: Slice, a: nat)
    requires sl.Valid() && 1 <= a < sl.range
    ensures var m := TWO_TO_THE_32 % sl.range;
            At(sl, TWO_TO_THE_32 - a) == sl.base + (if a <= m then m - a else sl.range + m - a)
  {
    var r, n := sl.range, TWO_TO_THE_32;
    Modular.Quotient(n, r);
    var q, m := n / r, n % r;
    if a <= m {
      Modular.RemainderUnique(n - a, r, q, m - a);
    } else {
      assert q >= 1;
      assert r * (q - 1) == r * q - r;
      Modular.RemainderUnique(n - a, r, q - 1, r + m - a);
    }
  }

  /** Just after it: a new turn, from its first slot. */
  lemma AfterSeam(sl: Slice, b: nat)
    requires sl.Valid() && b < sl.range
    ensures At(sl, TWO_TO_THE_32 + b) == sl.base + b
  {
    Modular.RemainderUnique(b, sl.range, 0, b);
  }

  /** One call's worth of steps covers every slot exactly when no seam lies inside it. */
  lemma {:induction false} FullTurnVisitsAllIff(sl: Slice, from: Uint32)
    requires sl.Valid()
    ensures Walked(sl, from, from + sl.range) == AllSlots(sl) <==> Seamless(sl, from + sl.range)
  {
    hide At, Walked;
    if Seamless(sl, from + sl.range) {
      FullTurnIsAll(sl, from);
    } else {
      var m, x := TWO_TO_THE_32 % sl.range, TWO_TO_THE_32 - from;
      var a := if m + x <= sl.range then 1 else m + x - sl.range + 1;
      BeforeSeam(sl, a);
      AfterSeam(sl, m - a);
      WalkedCard(sl, from, from + sl.range);
      assert At(sl, TWO_TO_THE_32 - a) == At(sl, TWO_TO_THE_32 + (m - a));
    }
  }

  /** A call fails exactly when everything under the next range steps is in flight; away from the seam
      that is every slot. */
  lemma {:induction false} AllocatorFailsIff(sl: Slice, cursor: Uint32, busy: set<Uint16>)
    requires sl.Valid()
    ensures NextSrcPort(sl, cursor, busy, sl.range).port == None
            <==> Walked(sl, cursor, cursor + sl.range) <= busy
    ensures Seamless(sl, cursor + sl.range) ==>
              (NextSrcPort(sl, cursor, busy, sl.range).port == None <==> AllSlots(sl) <= busy)
  {
    hide At, Walked, AllSlots, NextSrcPort, Tries, BusyFromTo, Seamless;
    NextSrcPortMeaning(sl, cursor, busy, sl.range);
    var f, t := NextSrcPort(sl, cursor, busy, sl.range), Tries(sl, cursor, busy, sl.range);
    BusyIsWalked(sl, busy, cursor, cursor + sl.range);
    if f.port != None {
      WalkedHas(sl, cursor, cursor + sl.range, cursor + t - 1);
    }
    if Seamless(sl, cursor + sl.range) {
      FullTurnIsAll(sl, cursor);
    }
  }
}
