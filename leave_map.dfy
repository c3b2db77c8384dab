// The LeaveMap of inc/klv.h and its set-up in src/klv.c: the leave value
// of every subset of a rack of at most seven tiles, indexed by a bitmask
// with one bit per tile, so that move generation reads the value of the
// tiles it has not played in one array access.
module LeaveMaps {
  import opened Defs
  import opened BoardTables
  import opened KwgNode
  import opened Game
  import opened Klv

  /** LEAVE_MAP_SIZE: one entry per subset of seven tiles. */
  const LEAVE_MAP_SIZE: int := 128
  /** The value every best_leaves entry starts from. */
  const NO_LEAVE: int := -32767

  // ---------------------------------------------------------------------
  // Bits of a uint8, on naturals

  /** 1 << p. */
  function Pow2(p: nat): (r: nat)
    ensures r >= 1
  {
    if p == 0 then 1 else 2 * Pow2(p - 1)
  }

  /** Bit p of x. */
  predicate HasBit(x: nat, p: nat)
  {
    if p == 0 then x % 2 == 1 else HasBit(x / 2, p - 1)
  }

  /** x | y, bit by bit. */
  function Or(x: nat, y: nat): nat
    decreases x + y
  {
    if x == 0 && y == 0 then 0
    else 2 * Or(x / 2, y / 2) + (if x % 2 == 1 || y % 2 == 1 then 1 else 0)
  }

  /** x & ~y, bit by bit. */
  function AndNot(x: nat, y: nat): nat
  {
    if x == 0 then 0
    else 2 * AndNot(x / 2, y / 2) + (if x % 2 == 1 && y % 2 == 0 then 1 else 0)
  }

  /** Or-ing in bit q adds 2^q exactly when the bit was clear. */
  lemma {:induction false} OrPow(x: nat, q: nat)
    ensures Or(x, Pow2(q)) == if HasBit(x, q) then x else x + Pow2(q)
    decreases q
  {
    if q == 0 {
      OrZero(x / 2);
      assert Or(x, 1) == 2 * Or(x / 2, 0) + 1;
    } else {
      var h := Pow2(q - 1);
      assert Pow2(q) == 2 * h;
      assert Or(x, 2 * h) == 2 * Or(x / 2, h) + x % 2;
      OrPow(x / 2, q - 1);
    }
  }

  lemma {:induction false} OrZero(x: nat)
    ensures Or(x, 0) == x
  {
    if x != 0 {
      OrZero(x / 2);
    }
  }

  /** Masking out bit q subtracts 2^q exactly when the bit was set. */
  lemma {:induction false} AndNotPow(x: nat, q: nat)
    ensures AndNot(x, Pow2(q)) == if HasBit(x, q) then x - Pow2(q) else x
    decreases q
  {
    if x == 0 {
      ZeroBit(q);
    } else if q == 0 {
      AndNotZero(x / 2);
      assert AndNot(x, 1) == 2 * AndNot(x / 2, 0);
    } else {
      var h := Pow2(q - 1);
      assert Pow2(q) == 2 * h;
      assert AndNot(x, 2 * h) == 2 * AndNot(x / 2, h) + x % 2;
      AndNotPow(x / 2, q - 1);
    }
  }

  lemma {:induction false} AndNotZero(x: nat)
    ensures AndNot(x, 0) == x
  {
    if x != 0 {
      AndNotZero(x / 2);
    }
  }

  lemma {:induction false} ZeroBit(p: nat)
    ensures !HasBit(0, p)
  {
    if p > 0 {
      ZeroBit(p - 1);
    }
  }

  /** Adding 2^q to a number whose bit q is clear sets that bit and no other. */
  lemma {:induction false} AddBit(x: nat, q: nat, p: nat)
    requires !HasBit(x, q)
    ensures HasBit(x + Pow2(q), p) <==> HasBit(x, p) || p == q
  {
    if q > 0 && p > 0 {
      assert (x + Pow2(q)) / 2 == x / 2 + Pow2(q - 1);
      AddBit(x / 2, q - 1, p - 1);
    } else if q > 0 {
      assert (x + Pow2(q)) % 2 == x % 2;
    } else if p > 0 {
      assert (x + 1) / 2 == x / 2;
    }
  }

  /** A set bit q contributes 2^q: taking it away leaves the bit clear. */
  lemma {:induction false} SubBit(x: nat, q: nat)
    requires HasBit(x, q)
    ensures x >= Pow2(q) && !HasBit(x - Pow2(q), q)
  {
    if q > 0 {
      SubBit(x / 2, q - 1);
      assert (x - Pow2(q)) / 2 == x / 2 - Pow2(q - 1);
    }
  }

  /** Below 2^n, a clear bit q < n can be added without reaching 2^n. */
  lemma {:induction false} AddBound(x: nat, q: nat, n: nat)
    requires x < Pow2(n) && q < n && !HasBit(x, q)
    ensures x + Pow2(q) < Pow2(n)
  {
    var h := Pow2(n - 1);
    assert Pow2(n) == 2 * h;
    var y := x / 2;
    assert x == 2 * y + x % 2;
    assert y < h;
    if q > 0 {
      assert Pow2(q) == 2 * Pow2(q - 1);
      assert !HasBit(y, q - 1);
      AddBound(y, q - 1, n - 1);
    } else {
      assert x % 2 == 0;
    }
  }

  lemma {:induction false} Pow2Mono(p: nat, n: nat)
    requires p <= n
    ensures Pow2(p) <= Pow2(n)
  {
    if p < n {
      Pow2Mono(p, n - 1);
    }
  }

  /** 1 << 8. */
  lemma {:induction false} Pow2Byte()
    ensures Pow2(8) == 256
  {
  }

  /** current_index &= ~(1 << b) on a uint8: the shift is done on an int, so
    * for b from 8 to 30 the mask keeps all eight bits of the index (from 31
    * on the shift itself is undefined). */
  function Cleared(x: Byte, b: nat): (r: Byte)
    requires b < 31
    ensures r == if b < 8 && HasBit(x, b) then x - Pow2(b) else x
  {
    if b < 8 then AndNotPow(x, b); AndNot(x, Pow2(b)) else x
  }

  /** current_index |= (1 << b) on a uint8: bits from 8 on are cut off by
    * the store. */
  function Raised(x: Byte, b: nat): (r: Byte)
    requires b < 31
    ensures r == if b < 8 && !HasBit(x, b) then x + Pow2(b) else x
  {
    if b < 8 then
      OrPow(x, b);
      if !HasBit(x, b) then Pow2Byte(); AddBound(x, b, 8); Or(x, Pow2(b)) else Or(x, Pow2(b))
    else x
  }

  /** Taking a letter clears exactly its bit. */
  lemma {:induction false} ClearedBits(x: Byte, b: nat, p: nat)
    requires b < 8 && p < 8
    ensures HasBit(Cleared(x, b), p) <==> HasBit(x, p) && p != b
  {
    if HasBit(x, b) {
      SubBit(x, b);
      AddBit(x - Pow2(b), b, p);
    }
  }

  /** Adding a letter back sets exactly its bit. */
  lemma {:induction false} RaisedBits(x: Byte, b: nat, p: nat)
    requires b < 8 && p < 8
    ensures HasBit(Raised(x, b), p) <==> HasBit(x, p) || p == b
  {
    if !HasBit(x, b) {
      AddBit(x, b, p);
    }
  }

  /** Adding back after taking sets the bit, so it restores the index exactly
    * when the bit was set before (or lies outside the byte); taking after
    * adding clears it. */
  lemma {:induction false} TakeAddRoundTrip(x: Byte, b: nat)
    requires b < 31
    ensures Raised(Cleared(x, b), b) == Raised(x, b)
    ensures Cleared(Raised(x, b), b) == Cleared(x, b)
    ensures Raised(Cleared(x, b), b) == x <==> b >= 8 || HasBit(x, b)
  {
    if b < 8 {
      if HasBit(x, b) {
        SubBit(x, b);
        AddBit(x - Pow2(b), b, b);
      } else {
        AddBit(x, b, b);
      }
    }
  }

  /** leave_map_init leaves the index at 0, the entry of the whole rack,
    * and leave_map_take_letter clears a bit: from 0 there is nothing to
    * clear, so after the first tile of a move the index still names the
    * whole rack. */
  lemma {:induction false} FirstTakeKeepsWholeRack(b: nat)
    requires b < 31
    ensures Cleared(0, b) == 0
  {
    ZeroBit(b);
  }

  // ---------------------------------------------------------------------
  // Where each tile's bit sits

  /** Slot k of letter l's block: the block of a letter starts where the
    * tiles of the letters below it end. */
  function Slot(orig: seq<nat>, l: nat, k: nat): (s: nat)
    requires |orig| == ALPHABET_SIZE && l < ALPHABET_SIZE && k < orig[l]
    ensures SumTo(orig, l) <= s < SumTo(orig, l) + orig[l] <= SumTo(orig, ALPHABET_SIZE)
  {
    SumToBounds(orig, ALPHABET_SIZE, l);
    SumTo(orig, l) + k
  }

  /** The bit of the copy of letter l that is left with count k on the rack:
    * slot k of the block read backwards (reversed_bit_map). */
  function BitOf(orig: seq<nat>, l: nat, k: nat): (p: nat)
    requires |orig| == ALPHABET_SIZE && l < ALPHABET_SIZE && k < orig[l]
    ensures SumTo(orig, l) <= p < SumTo(orig, l) + orig[l] <= SumTo(orig, ALPHABET_SIZE)
  {
    SumToBounds(orig, ALPHABET_SIZE, l);
    SumTo(orig, l) + orig[l] - 1 - k
  }

  /** Different tiles have different bits: the letters' blocks do not overlap. */
  lemma {:induction false} BitOfInjective(orig: seq<nat>, l1: nat, k1: nat, l2: nat, k2: nat)
    requires |orig| == ALPHABET_SIZE && l1 < ALPHABET_SIZE && k1 < orig[l1]
    requires l2 < ALPHABET_SIZE && k2 < orig[l2]
    requires BitOf(orig, l1, k1) == BitOf(orig, l2, k2)
    ensures l1 == l2 && k1 == k2
  {
    if l1 < l2 {
      SumToBounds(orig, l2, l1);
    } else if l2 < l1 {
      SumToBounds(orig, l1, l2);
    }
  }

  /** A slot of a letter below m lies below the block of m. */
  lemma {:induction false} SlotBelow(orig: seq<nat>, l: nat, k: nat, m: nat)
    requires |orig| == ALPHABET_SIZE && l < m <= ALPHABET_SIZE && k < orig[l]
    ensures Slot(orig, l, k) < SumTo(orig, m)
  {
    SumToBounds(orig, m, l);
  }

  /** Bases and reversed bits of the letters below m, as leave_map_init
    * lays them out for the rack orig. */
  ghost predicate Layout(orig: seq<nat>, m: nat, bases: seq<Byte>, rev: seq<Byte>)
    requires |orig| == ALPHABET_SIZE && SumTo(orig, ALPHABET_SIZE) <= RACK_SIZE && m <= ALPHABET_SIZE
    requires |bases| == ALPHABET_SIZE && |rev| == RACK_SIZE
  {
    && (forall l :: 0 <= l < m ==> bases[l] == if orig[l] > 0 then SumTo(orig, l) else 0)
    && (forall l, k {:trigger Slot(orig, l, k)} :: 0 <= l < m && 0 <= k < orig[l] ==>
          rev[Slot(orig, l, k)] == Pow2(BitOf(orig, l, k)))
  }

  /** Laying out letter m, whose block starts at base, after the letters
    * below it. */
  lemma {:induction false} LayoutStep(orig: seq<nat>, m: nat, base: Byte, bases: seq<Byte>, rev: seq<Byte>, rev': seq<Byte>)
    requires |orig| == ALPHABET_SIZE && SumTo(orig, ALPHABET_SIZE) <= RACK_SIZE && m < ALPHABET_SIZE
    requires |bases| == ALPHABET_SIZE && |rev| == |rev'| == RACK_SIZE
    requires Layout(orig, m, bases, rev)
    requires base == SumTo(orig, m) && base + orig[m] <= RACK_SIZE
    requires rev'[..base] == rev[..base]
    requires forall s :: base <= s < base + orig[m] ==> rev'[s] == Pow2(2 * base + orig[m] - 1 - s)
    ensures Layout(orig, m + 1, bases[m := if orig[m] > 0 then base else 0], rev')
  {
    forall l, k | 0 <= l < m && 0 <= k < orig[l]
      ensures rev'[Slot(orig, l, k)] == Pow2(BitOf(orig, l, k))
    {
      SlotBelow(orig, l, k, m);
      assert rev'[Slot(orig, l, k)] == rev'[..base][Slot(orig, l, k)];
    }
    forall k | 0 <= k < orig[m]
      ensures rev'[Slot(orig, m, k)] == Pow2(BitOf(orig, m, k))
    {
      var s := Slot(orig, m, k);
      assert s == base + k;
      assert 2 * base + orig[m] - 1 - s == BitOf(orig, m, k);
    }
  }

  // ---------------------------------------------------------------------
  // The index of a leave

  /** The bits of the copies of letter l from count j up to orig[l]: the
    * copies of l that a leave holding j of them has given up. */
  function Block(orig: seq<nat>, l: nat, j: nat): nat
    requires |orig| == ALPHABET_SIZE && l < ALPHABET_SIZE && j <= orig[l]
    decreases orig[l] - j
  {
    if j == orig[l] then 0 else Pow2(BitOf(orig, l, j)) + Block(orig, l, j + 1)
  }

  /** The blocks of the letters below m. */
  function IndexTo(orig: seq<nat>, c: seq<nat>, m: nat): nat
    requires Below(c, orig) && m <= ALPHABET_SIZE
  {
    if m == 0 then 0 else IndexTo(orig, c, m - 1) + Block(orig, m - 1, c[m - 1])
  }

  /** The index populate_leave_values files the leave c of the rack orig
    * under: the bits of the tiles of orig that c no longer holds. */
  function IndexOf(orig: seq<nat>, c: seq<nat>): nat
    requires Below(c, orig)
  {
    IndexTo(orig, c, ALPHABET_SIZE)
  }

  /** The index below m depends on the counts below m only. */
  lemma {:induction false} IndexToPrefix(orig: seq<nat>, c1: seq<nat>, c2: seq<nat>, m: nat)
    requires Below(c1, orig) && Below(c2, orig) && m <= ALPHABET_SIZE
    requires forall l :: 0 <= l < m ==> c1[l] == c2[l]
    ensures IndexTo(orig, c1, m) == IndexTo(orig, c2, m)
  {
    if m > 0 {
      IndexToPrefix(orig, c1, c2, m - 1);
    }
  }

  /** Changing the count of letter t swaps its block. */
  lemma {:induction false} IndexToUpdate(orig: seq<nat>, c: seq<nat>, m: nat, t: nat, v: nat)
    requires Below(c, orig) && t < m <= ALPHABET_SIZE && v <= orig[t]
    ensures Below(c[t := v], orig)
    ensures IndexTo(orig, c[t := v], m) + Block(orig, t, c[t]) == IndexTo(orig, c, m) + Block(orig, t, v)
  {
    if t < m - 1 {
      IndexToUpdate(orig, c, m - 1, t, v);
    } else {
      IndexToPrefix(orig, c, c[t := v], m - 1);
    }
  }

  /** Taking a copy of letter ml off the leave c adds that copy's bit to
    * the index. */
  lemma {:induction false} IndexTake(orig: seq<nat>, c: seq<nat>, ml: nat)
    requires Below(c, orig) && ml < ALPHABET_SIZE && c[ml] > 0
    ensures Below(c[ml := c[ml] - 1], orig)
    ensures IndexOf(orig, c[ml := c[ml] - 1]) == IndexOf(orig, c) + Pow2(BitOf(orig, ml, c[ml] - 1))
  {
    IndexToUpdate(orig, c, ALPHABET_SIZE, ml, c[ml] - 1);
  }

  /** The whole rack has index 0. */
  lemma {:induction false} IndexToWhole(orig: seq<nat>, m: nat)
    requires |orig| == ALPHABET_SIZE && m <= ALPHABET_SIZE
    ensures Below(orig, orig) && IndexTo(orig, orig, m) == 0
  {
    if m > 0 {
      IndexToWhole(orig, m - 1);
    }
  }

  /** The first letter from i on of which c holds fewer copies than orig. */
  function FirstLess(c: seq<nat>, orig: seq<nat>, i: nat): (r: nat)
    requires Below(c, orig) && i <= ALPHABET_SIZE
    ensures i <= r <= ALPHABET_SIZE
    ensures forall l :: i <= l < r ==> c[l] == orig[l]
    ensures r < ALPHABET_SIZE ==> c[r] < orig[r]
    decreases ALPHABET_SIZE - i
  {
    if i == ALPHABET_SIZE then i
    else if c[i] < orig[i] then i
    else FirstLess(c, orig, i + 1)
  }

  /** The index has the bit of a tile set exactly when the leave no longer
    * holds that tile, and no bit from the rack's size on. */
  lemma {:induction false} IndexBits(orig: seq<nat>, c: seq<nat>)
    requires Below(c, orig)
    ensures IndexOf(orig, c) < Pow2(SumTo(orig, ALPHABET_SIZE))
    ensures forall l, k {:trigger BitOf(orig, l, k)} :: 0 <= l < ALPHABET_SIZE && 0 <= k < orig[l] ==>
      (HasBit(IndexOf(orig, c), BitOf(orig, l, k)) <==> c[l] <= k)
    decreases SumTo(orig, ALPHABET_SIZE) - SumTo(c, ALPHABET_SIZE)
  {
    SumToBelow(c, orig, ALPHABET_SIZE);
    if c == orig {
      IndexBitsWhole(orig);
    } else {
      var l0 := FirstLess(c, orig, 0);
      FirstLessDiffers(c, orig);
      var up := c[l0 := c[l0] + 1];
      SumToUpdate(c, ALPHABET_SIZE, l0, c[l0] + 1);
      SumToBelow(up, orig, ALPHABET_SIZE);
      IndexBits(orig, up);
      IndexBitsDown(orig, up, l0);
      assert up[l0 := up[l0] - 1] == c;
    }
  }

  /** IndexBits for the whole rack: index 0, no bit set. */
  lemma IndexBitsWhole(orig: seq<nat>)
    requires |orig| == ALPHABET_SIZE
    ensures Below(orig, orig) && IndexOf(orig, orig) == 0 && 0 < Pow2(SumTo(orig, ALPHABET_SIZE))
    ensures forall p :: !HasBit(IndexOf(orig, orig), p)
  {
    IndexToWhole(orig, ALPHABET_SIZE);
    forall p ensures !HasBit(0, p) {
      ZeroBit(p);
    }
  }

  /** A leave other than the rack itself holds fewer copies of some letter. */
  lemma FirstLessDiffers(c: seq<nat>, orig: seq<nat>)
    requires Below(c, orig) && c != orig
    ensures FirstLess(c, orig, 0) < ALPHABET_SIZE
  {
  }

  /** The step of IndexBits: from a leave to the leave with one copy of
    * letter l0 fewer. */
  lemma IndexBitsDown(orig: seq<nat>, up: seq<nat>, l0: nat)
    requires Below(up, orig) && l0 < ALPHABET_SIZE && up[l0] > 0
    requires IndexOf(orig, up) < Pow2(SumTo(orig, ALPHABET_SIZE))
    requires forall l, k {:trigger BitOf(orig, l, k)} :: 0 <= l < ALPHABET_SIZE && 0 <= k < orig[l] ==>
      (HasBit(IndexOf(orig, up), BitOf(orig, l, k)) <==> up[l] <= k)
    ensures Below(up[l0 := up[l0] - 1], orig)
    ensures IndexOf(orig, up[l0 := up[l0] - 1]) < Pow2(SumTo(orig, ALPHABET_SIZE))
    ensures forall l, k {:trigger BitOf(orig, l, k)} :: 0 <= l < ALPHABET_SIZE && 0 <= k < orig[l] ==>
      (HasBit(IndexOf(orig, up[l0 := up[l0] - 1]), BitOf(orig, l, k)) <==> up[l0 := up[l0] - 1][l] <= k)
  {
    var c := up[l0 := up[l0] - 1];
    IndexTake(orig, up, l0);
    var x := IndexOf(orig, up);
    var q := BitOf(orig, l0, c[l0]);
    assert !HasBit(x, q);
    AddBound(x, q, SumTo(orig, ALPHABET_SIZE));
    forall l, k | 0 <= l < ALPHABET_SIZE && 0 <= k < orig[l]
      ensures HasBit(IndexOf(orig, c), BitOf(orig, l, k)) <==> c[l] <= k
    {
      AddBit(x, q, BitOf(orig, l, k));
      if BitOf(orig, l, k) == q {
        BitOfInjective(orig, l, k, l0, c[l0]);
      }
    }
  }

  /** IndexBits for one tile. */
  lemma IndexBit(orig: seq<nat>, c: seq<nat>, l: nat, k: nat)
    requires Below(c, orig) && l < ALPHABET_SIZE && k < orig[l]
    ensures HasBit(IndexOf(orig, c), BitOf(orig, l, k)) <==> c[l] <= k
  {
    IndexBits(orig, c);
  }

  /** Different leaves have different indices. */
  lemma {:induction false} IndexInjective(orig: seq<nat>, c1: seq<nat>, c2: seq<nat>)
    requires Below(c1, orig) && Below(c2, orig)
    ensures IndexOf(orig, c1) == IndexOf(orig, c2) ==> c1 == c2
  {
    if IndexOf(orig, c1) == IndexOf(orig, c2) {
      forall l | 0 <= l < ALPHABET_SIZE
        ensures c1[l] == c2[l]
      {
        if c1[l] < c2[l] {
          IndexBit(orig, c1, l, c1[l]);
          IndexBit(orig, c2, l, c1[l]);
          assert false;
        } else if c2[l] < c1[l] {
          IndexBit(orig, c2, l, c2[l]);
          IndexBit(orig, c1, l, c2[l]);
          assert false;
        }
      }
    }
  }

  /** A leave of a rack of at most seven tiles has an index below 128. */
  lemma IndexInMap(orig: seq<nat>, c: seq<nat>)
    requires Below(c, orig) && SumTo(orig, ALPHABET_SIZE) <= RACK_SIZE
    ensures IndexOf(orig, c) < LEAVE_MAP_SIZE
  {
    IndexBits(orig, c);
    Pow2Mono(SumTo(orig, ALPHABET_SIZE), RACK_SIZE);
    assert Pow2(RACK_SIZE) == LEAVE_MAP_SIZE;
  }

  // ---------------------------------------------------------------------
  // The order populate_leave_values writes the leaves in

  /** The leaves populate_leave_values(start) writes from the leave cs, in
    * order: cs itself, then for each letter from start on that cs holds,
    * the leaves written after taking one copy of it. */
  ghost function Visits(cs: seq<nat>, start: nat): seq<seq<nat>>
    requires |cs| == ALPHABET_SIZE
    decreases SumTo(cs, ALPHABET_SIZE), 1
  {
    [cs] + VisitsTo(cs, start, ALPHABET_SIZE)
  }

  /** What the loop over the letters has written once it reaches letter m. */
  ghost function VisitsTo(cs: seq<nat>, start: nat, m: nat): seq<seq<nat>>
    requires |cs| == ALPHABET_SIZE && m <= ALPHABET_SIZE
    decreases SumTo(cs, ALPHABET_SIZE), 0, m
  {
    if m <= start then []
    else if cs[m - 1] == 0 then VisitsTo(cs, start, m - 1)
    else
      SumToUpdate(cs, ALPHABET_SIZE, m - 1, cs[m - 1] - 1);
      VisitsTo(cs, start, m - 1) + Visits(cs[m - 1 := cs[m - 1] - 1], m - 1)
  }

  /** c keeps the counts of cs below letter n. */
  predicate Agree(c: seq<nat>, cs: seq<nat>, n: nat)
    requires |c| == |cs| == ALPHABET_SIZE && n <= ALPHABET_SIZE
  {
    forall l :: 0 <= l < n ==> c[l] == cs[l]
  }

  /** Only leaves of cs that keep its counts below start are written. */
  lemma {:induction false} VisitsBelow(cs: seq<nat>, start: nat)
    requires |cs| == ALPHABET_SIZE && start <= ALPHABET_SIZE
    ensures forall w :: w in Visits(cs, start) ==> Below(w, cs) && Agree(w, cs, start)
    decreases SumTo(cs, ALPHABET_SIZE), 1
  {
    VisitsToBelow(cs, start, ALPHABET_SIZE);
  }

  lemma {:induction false} VisitsToBelow(cs: seq<nat>, start: nat, m: nat)
    requires |cs| == ALPHABET_SIZE && start <= ALPHABET_SIZE && m <= ALPHABET_SIZE
    ensures forall w :: w in VisitsTo(cs, start, m) ==> Below(w, cs) && Agree(w, cs, start)
    decreases SumTo(cs, ALPHABET_SIZE), 0, m
  {
    if m > start {
      VisitsToBelow(cs, start, m - 1);
      if cs[m - 1] > 0 {
        SumToUpdate(cs, ALPHABET_SIZE, m - 1, cs[m - 1] - 1);
        VisitsBelow(cs[m - 1 := cs[m - 1] - 1], m - 1);
      }
    }
  }

  /** A leave reached through letter ml is written by the loop from ml on. */
  lemma {:induction false} VisitsToHas(cs: seq<nat>, start: nat, m: nat, ml: nat, c: seq<nat>)
    requires |cs| == ALPHABET_SIZE && start <= ml < m <= ALPHABET_SIZE && cs[ml] > 0
    requires c in Visits(cs[ml := cs[ml] - 1], ml)
    ensures c in VisitsTo(cs, start, m)
    decreases m
  {
    if ml < m - 1 {
      VisitsToHas(cs, start, m - 1, ml, c);
    }
  }

  /** Every leave of cs that keeps its counts below start is written. */
  lemma {:induction false} VisitsComplete(cs: seq<nat>, start: nat, c: seq<nat>)
    requires |cs| == ALPHABET_SIZE && start <= ALPHABET_SIZE && Below(c, cs) && Agree(c, cs, start)
    ensures c in Visits(cs, start)
    decreases SumTo(cs, ALPHABET_SIZE)
  {
    if c != cs {
      var ml := FirstLess(c, cs, start);
      assert ml < ALPHABET_SIZE;
      SumToUpdate(cs, ALPHABET_SIZE, ml, cs[ml] - 1);
      VisitsComplete(cs[ml := cs[ml] - 1], ml, c);
      VisitsToHas(cs, start, ALPHABET_SIZE, ml, c);
    }
  }

  // ---------------------------------------------------------------------
  // What the tables hold after the leaves are written

  /** The value klv reads for a leave, or 0 where the lexicon or the leave
    * table cannot answer. */
  ghost function TableValue(kwg: seq<Node>, wc: seq<nat>, leaves: seq<Byte>, c: seq<nat>): int
  {
    if WellFormed(kwg) && |wc| == |kwg| && |c| == ALPHABET_SIZE && LeaveInRange(leaves, WordIndexOf(kwg, wc, c))
    then LeaveValueOf(kwg, wc, leaves, c)
    else 0
  }

  /** leave_values once the leaves ws of the rack orig are written in turn,
    * each at its index. */
  ghost function Stored(L: seq<int>, ws: seq<seq<nat>>, orig: seq<nat>, kwg: seq<Node>, wc: seq<nat>, leaves: seq<Byte>): (r: seq<int>)
    requires |L| == LEAVE_MAP_SIZE
    ensures |r| == LEAVE_MAP_SIZE
    decreases |ws|
  {
    if ws == [] then L
    else
      var r0 := Stored(L, ws[..|ws| - 1], orig, kwg, wc, leaves);
      var w := ws[|ws| - 1];
      if Below(w, orig) && SumTo(orig, ALPHABET_SIZE) <= RACK_SIZE then
        IndexInMap(orig, w);
        r0[IndexOf(orig, w) := TableValue(kwg, wc, leaves, w)]
      else r0
  }

  /** best_leaves once the leaves ws have raised it in turn, each at its
    * number of tiles. */
  ghost function Best(B: seq<int>, ws: seq<seq<nat>>, kwg: seq<Node>, wc: seq<nat>, leaves: seq<Byte>): (r: seq<int>)
    requires |B| == RACK_SIZE + 1
    ensures |r| == RACK_SIZE + 1
    decreases |ws|
  {
    if ws == [] then B
    else
      var r0 := Best(B, ws[..|ws| - 1], kwg, wc, leaves);
      var w := ws[|ws| - 1];
      if |w| == ALPHABET_SIZE && SumTo(w, ALPHABET_SIZE) <= RACK_SIZE
        && TableValue(kwg, wc, leaves, w) > r0[SumTo(w, ALPHABET_SIZE)]
      then r0[SumTo(w, ALPHABET_SIZE) := TableValue(kwg, wc, leaves, w)]
      else r0
  }

  /** Writing a then b is writing a, then b. */
  lemma {:induction false} StoredAppend(L: seq<int>, a: seq<seq<nat>>, b: seq<seq<nat>>, orig: seq<nat>, kwg: seq<Node>, wc: seq<nat>, leaves: seq<Byte>)
    requires |L| == LEAVE_MAP_SIZE
    ensures Stored(L, a + b, orig, kwg, wc, leaves) == Stored(Stored(L, a, orig, kwg, wc, leaves), b, orig, kwg, wc, leaves)
    decreases |b|
  {
    if b == [] {
      assert a + b == a;
    } else {
      var b' := b[..|b| - 1];
      assert (a + b)[..|a + b| - 1] == a + b';
      assert (a + b)[|a + b| - 1] == b[|b| - 1];
      StoredAppend(L, a, b', orig, kwg, wc, leaves);
    }
  }

  /** Raising by a then b is raising by a, then b. */
  lemma {:induction false} BestAppend(B: seq<int>, a: seq<seq<nat>>, b: seq<seq<nat>>, kwg: seq<Node>, wc: seq<nat>, leaves: seq<Byte>)
    requires |B| == RACK_SIZE + 1
    ensures Best(B, a + b, kwg, wc, leaves) == Best(Best(B, a, kwg, wc, leaves), b, kwg, wc, leaves)
    decreases |b|
  {
    if b == [] {
      assert a + b == a;
    } else {
      var b' := b[..|b| - 1];
      assert (a + b)[..|a + b| - 1] == a + b';
      assert (a + b)[|a + b| - 1] == b[|b| - 1];
      BestAppend(B, a, b', kwg, wc, leaves);
    }
  }

  /** Once the leave c is written its entry holds its value: no other leave
    * shares its index. */
  lemma {:induction false} StoredAt(L: seq<int>, ws: seq<seq<nat>>, orig: seq<nat>, kwg: seq<Node>, wc: seq<nat>, leaves: seq<Byte>, c: seq<nat>)
    requires |L| == LEAVE_MAP_SIZE && Below(c, orig) && SumTo(orig, ALPHABET_SIZE) <= RACK_SIZE && c in ws
    ensures IndexOf(orig, c) < LEAVE_MAP_SIZE
    ensures Stored(L, ws, orig, kwg, wc, leaves)[IndexOf(orig, c)] == TableValue(kwg, wc, leaves, c)
    decreases |ws|
  {
    IndexInMap(orig, c);
    var ws' := ws[..|ws| - 1];
    var w := ws[|ws| - 1];
    assert ws == ws' + [w];
    if w != c {
      assert c in ws';
      StoredAt(L, ws', orig, kwg, wc, leaves, c);
      if Below(w, orig) {
        IndexInjective(orig, w, c);
      }
    }
  }

  /** best_leaves only rises; each leave written leaves the entry for its
    * size at least its value; and each entry is its start value or the
    * value of a leave of that size. */
  lemma {:induction false} BestFacts(B: seq<int>, ws: seq<seq<nat>>, kwg: seq<Node>, wc: seq<nat>, leaves: seq<Byte>)
    requires |B| == RACK_SIZE + 1
    requires forall w :: w in ws ==> |w| == ALPHABET_SIZE && SumTo(w, ALPHABET_SIZE) <= RACK_SIZE
    ensures forall s :: 0 <= s <= RACK_SIZE ==> Best(B, ws, kwg, wc, leaves)[s] >= B[s]
    ensures forall w :: w in ws ==> Best(B, ws, kwg, wc, leaves)[SumTo(w, ALPHABET_SIZE)] >= TableValue(kwg, wc, leaves, w)
    ensures forall s :: 0 <= s <= RACK_SIZE ==> (Best(B, ws, kwg, wc, leaves)[s] == B[s] ||
      exists w :: w in ws && SumTo(w, ALPHABET_SIZE) == s && Best(B, ws, kwg, wc, leaves)[s] == TableValue(kwg, wc, leaves, w))
    decreases |ws|
  {
    if ws != [] {
      var ws' := ws[..|ws| - 1];
      assert ws == ws' + [ws[|ws| - 1]];
      BestFacts(B, ws', kwg, wc, leaves);
    }
  }

  /** The leaves a branch of the loop writes follow those written before it. */
  lemma BranchAppends(L0: seq<int>, B0: seq<int>, L1: seq<int>, B1: seq<int>, L2: seq<int>, B2: seq<int>,
                      cs: seq<nat>, start: nat, ml: nat, orig: seq<nat>, kwg: seq<Node>, wc: seq<nat>, leaves: seq<Byte>)
    requires |L0| == LEAVE_MAP_SIZE && |B0| == RACK_SIZE + 1
    requires |cs| == ALPHABET_SIZE && start <= ml < ALPHABET_SIZE && cs[ml] > 0
    requires L1 == Stored(L0, [cs] + VisitsTo(cs, start, ml), orig, kwg, wc, leaves)
    requires B1 == Best(B0, [cs] + VisitsTo(cs, start, ml), kwg, wc, leaves)
    requires L2 == Stored(L1, Visits(cs[ml := cs[ml] - 1], ml), orig, kwg, wc, leaves)
    requires B2 == Best(B1, Visits(cs[ml := cs[ml] - 1], ml), kwg, wc, leaves)
    ensures L2 == Stored(L0, [cs] + VisitsTo(cs, start, ml + 1), orig, kwg, wc, leaves)
    ensures B2 == Best(B0, [cs] + VisitsTo(cs, start, ml + 1), kwg, wc, leaves)
  {
    var done := [cs] + VisitsTo(cs, start, ml);
    var sub := Visits(cs[ml := cs[ml] - 1], ml);
    StoredAppend(L0, done, sub, orig, kwg, wc, leaves);
    BestAppend(B0, done, sub, kwg, wc, leaves);
    assert [cs] + VisitsTo(cs, start, ml + 1) == done + sub;
  }

  /** populate_leave_values(0) from the whole rack orig writes the leave
    * value of every leave of orig at its index. */
  lemma TableFilled(L: seq<int>, orig: seq<nat>, kwg: seq<Node>, wc: seq<nat>, leaves: seq<Byte>)
    requires |L| == LEAVE_MAP_SIZE && |orig| == ALPHABET_SIZE && SumTo(orig, ALPHABET_SIZE) <= RACK_SIZE
    requires WellFormed(kwg) && |wc| == |kwg| && Covers(kwg, wc, leaves, orig)
    ensures forall c {:trigger Below(c, orig)} :: Below(c, orig) ==>
      IndexOf(orig, c) < LEAVE_MAP_SIZE &&
      Stored(L, Visits(orig, 0), orig, kwg, wc, leaves)[IndexOf(orig, c)] == LeaveValueOf(kwg, wc, leaves, c)
  {
    forall c | Below(c, orig)
      ensures IndexOf(orig, c) < LEAVE_MAP_SIZE
      ensures Stored(L, Visits(orig, 0), orig, kwg, wc, leaves)[IndexOf(orig, c)] == LeaveValueOf(kwg, wc, leaves, c)
    {
      VisitsComplete(orig, 0, c);
      StoredAt(L, Visits(orig, 0), orig, kwg, wc, leaves, c);
    }
  }

  /** ... and leaves each best_leaves entry at the larger of its start value
    * and the best leave value of a leave of that size. */
  lemma BestFilled(B: seq<int>, orig: seq<nat>, kwg: seq<Node>, wc: seq<nat>, leaves: seq<Byte>)
    requires |B| == RACK_SIZE + 1 && |orig| == ALPHABET_SIZE && SumTo(orig, ALPHABET_SIZE) <= RACK_SIZE
    requires WellFormed(kwg) && |wc| == |kwg| && Covers(kwg, wc, leaves, orig)
    ensures forall s :: 0 <= s <= RACK_SIZE ==> Best(B, Visits(orig, 0), kwg, wc, leaves)[s] >= B[s]
    ensures forall c {:trigger Below(c, orig)} :: Below(c, orig) ==>
      SumTo(c, ALPHABET_SIZE) <= RACK_SIZE &&
      Best(B, Visits(orig, 0), kwg, wc, leaves)[SumTo(c, ALPHABET_SIZE)] >= LeaveValueOf(kwg, wc, leaves, c)
    ensures forall s :: 0 <= s <= RACK_SIZE ==> (Best(B, Visits(orig, 0), kwg, wc, leaves)[s] == B[s] ||
      exists c :: Below(c, orig) && SumTo(c, ALPHABET_SIZE) == s &&
        Best(B, Visits(orig, 0), kwg, wc, leaves)[s] == LeaveValueOf(kwg, wc, leaves, c))
  {
    var ws := Visits(orig, 0);
    VisitsBelow(orig, 0);
    forall w | w in ws
      ensures |w| == ALPHABET_SIZE && SumTo(w, ALPHABET_SIZE) <= RACK_SIZE
    {
      SumToBelow(w, orig, ALPHABET_SIZE);
    }
    BestFacts(B, ws, kwg, wc, leaves);
    forall c | Below(c, orig)
      ensures SumTo(c, ALPHABET_SIZE) <= RACK_SIZE
      ensures Best(B, ws, kwg, wc, leaves)[SumTo(c, ALPHABET_SIZE)] >= LeaveValueOf(kwg, wc, leaves, c)
    {
      SumToBelow(c, orig, ALPHABET_SIZE);
      VisitsComplete(orig, 0, c);
    }
  }

  /** The memcpy of the rack in leave_map_init: a fresh rack with the same
    * counts and total. */
  method CopyOf(rack: Rack) returns (temp: Rack)
    requires rack.Valid()
    ensures fresh(temp) && fresh(temp.counts) && temp.Valid()
    ensures temp.counts[..] == rack.counts[..] && temp.total == rack.total
  {
    temp := new Rack();
    var l := 0;
    while l < ALPHABET_SIZE
      invariant 0 <= l <= ALPHABET_SIZE
      invariant forall k :: 0 <= k < l ==> temp.counts[k] == rack.counts[k]
    {
      temp.counts[l] := rack.counts[l];
      l := l + 1;
    }
    temp.total := rack.total;
  }

  // ---------------------------------------------------------------------
  // The map

  /** LeaveMap: a leave value per index, each letter's first bit, the bit of
    * each slot read backwards, the current index and the rack size. The
    * best_leaves array is written by src/klv.c although the struct in
    * inc/klv.h does not declare it; it has one entry per leave size 0..7. */
  class LeaveMap {
    const leaveValues: array<int>
    const letterBaseIndex: array<Byte>
    const reversedBitMap: array<Byte>
    var currentIndex: Byte
    var rackSize: Byte
    const bestLeaves: array<int>

    ghost predicate Valid()
    {
      && leaveValues.Length == LEAVE_MAP_SIZE
      && letterBaseIndex.Length == ALPHABET_SIZE
      && reversedBitMap.Length == RACK_SIZE
      && bestLeaves.Length == RACK_SIZE + 1
      && leaveValues != bestLeaves && letterBaseIndex != reversedBitMap
    }

    constructor ()
      ensures Valid() && fresh(leaveValues) && fresh(letterBaseIndex) && fresh(reversedBitMap) && fresh(bestLeaves)
    {
      leaveValues := new int[LEAVE_MAP_SIZE](_ => 0);
      letterBaseIndex := new Byte[ALPHABET_SIZE](_ => 0);
      reversedBitMap := new Byte[RACK_SIZE](_ => 0);
      bestLeaves := new int[RACK_SIZE + 1](_ => 0);
      currentIndex := 0;
      rackSize := 0;
    }

    /** The uint8 bit index of a letter with a count: base + count, wrapped. */
    function BitIndex(letter: MachineLetter, count: Byte): (b: nat)
      requires Valid() && IsLetter(letter)
      reads letterBaseIndex
      ensures b < 256
    {
      (letterBaseIndex[letter] + count) % 256
    }

    /** leave_map_take_letter: clear the letter's bit for the count left. An
      * int shift by 32 or more is undefined, so the index must be below 32. */
    method TakeLetter(letter: MachineLetter, countAfter: Byte)
      requires Valid() && IsLetter(letter) && BitIndex(letter, countAfter) < 31
      modifies this`currentIndex
      ensures currentIndex == Cleared(old(currentIndex), BitIndex(letter, countAfter))
    {
      var base := letterBaseIndex[letter];
      var bitIndex := (base + countAfter) % 256;
      currentIndex := Cleared(currentIndex, bitIndex);
    }

    /** leave_map_add_letter: set the letter's bit for the count before. */
    method AddLetter(letter: MachineLetter, countBefore: Byte)
      requires Valid() && IsLetter(letter) && BitIndex(letter, countBefore) < 31
      modifies this`currentIndex
      ensures currentIndex == Raised(old(currentIndex), BitIndex(letter, countBefore))
    {
      var base := letterBaseIndex[letter];
      var bitIndex := (base + countBefore) % 256;
      currentIndex := Raised(currentIndex, bitIndex);
    }

    /** leave_map_get_current: the value stored for the current index, which
      * must be below LEAVE_MAP_SIZE although a uint8 reaches 255. */
    function GetCurrent(): (v: int)
      requires Valid() && currentIndex < LEAVE_MAP_SIZE
      reads this, leaveValues
      ensures v == leaveValues[currentIndex]
    {
      leaveValues[currentIndex]
    }

    /** letter_base_index and reversed_bit_map as leave_map_init builds them
      * for a rack with counts orig. */
    ghost predicate MapsFor(orig: seq<nat>)
      requires Valid()
      reads letterBaseIndex, reversedBitMap
    {
      |orig| == ALPHABET_SIZE && SumTo(orig, ALPHABET_SIZE) <= RACK_SIZE && Placed(orig, ALPHABET_SIZE)
    }

    /** The letters below m have their base and their reversed bits in place. */
    ghost predicate Placed(orig: seq<nat>, m: nat)
      requires Valid() && |orig| == ALPHABET_SIZE && SumTo(orig, ALPHABET_SIZE) <= RACK_SIZE && m <= ALPHABET_SIZE
      reads letterBaseIndex, reversedBitMap
    {
      Layout(orig, m, letterBaseIndex[..], reversedBitMap[..])
    }

    /** What populate_leave_values relies on throughout: the bit maps laid
      * out for the rack orig, and a lexicon whose table holds every leave of
      * orig. */
    ghost predicate Env(klv: Klv, orig: seq<nat>)
      reads letterBaseIndex, reversedBitMap, klv, klv.kwg, klv.wordCounts
    {
      && Valid() && MapsFor(orig) && klv.Valid() && klv.Ready()
      && Covers(klv.Nodes(), klv.Counts(), klv.leaves, orig)
    }

    /** The table klv reads a rack's leave value from, as a function of its counts. */
    ghost function ValueOf(klv: Klv, counts: seq<nat>, orig: seq<nat>): int
      requires klv.Valid() && klv.Ready() && Below(counts, orig)
      requires Covers(klv.Nodes(), klv.Counts(), klv.leaves, orig)
      reads klv, klv.kwg, klv.wordCounts
    {
      LeaveValueOf(klv.Nodes(), klv.Counts(), klv.leaves, counts)
    }

    /** leave_values as leave_map_init leaves it for the rack orig: every
      * leave of orig has its leave value at its index. */
    ghost predicate TableFor(klv: Klv, orig: seq<nat>)
      requires Env(klv, orig)
      reads letterBaseIndex, reversedBitMap, leaveValues, klv, klv.kwg, klv.wordCounts
    {
      forall c {:trigger Below(c, orig)} :: Below(c, orig) ==>
        IndexOf(orig, c) < LEAVE_MAP_SIZE && leaveValues[IndexOf(orig, c)] == ValueOf(klv, c, orig)
    }

    /** best_leaves as leave_map_init leaves it for the rack orig: each entry
      * is at least -32767 and the value of every leave of its size, and is
      * either -32767 or the value of one of them. */
    ghost predicate BestFor(klv: Klv, orig: seq<nat>)
      requires Env(klv, orig)
      reads letterBaseIndex, reversedBitMap, bestLeaves, klv, klv.kwg, klv.wordCounts
    {
      && (forall s :: 0 <= s <= RACK_SIZE ==> bestLeaves[s] >= NO_LEAVE)
      && (forall c {:trigger Below(c, orig)} :: Below(c, orig) ==>
            SumTo(c, ALPHABET_SIZE) <= RACK_SIZE && bestLeaves[SumTo(c, ALPHABET_SIZE)] >= ValueOf(klv, c, orig))
      && (forall s :: 0 <= s <= RACK_SIZE ==> (bestLeaves[s] == NO_LEAVE ||
            exists c :: Below(c, orig) && SumTo(c, ALPHABET_SIZE) == s && bestLeaves[s] == ValueOf(klv, c, orig)))
    }

    /** leave_map_init: build the bit maps for the rack, start best_leaves at
      * -32767, and fill the table from a copy of the rack with index 0 for
      * the full rack. The rack must hold at most seven tiles, the size of
      * reversed_bit_map. */
    method Init(klv: Klv, rack: Rack)
      requires Valid() && klv.Valid() && klv.Ready() && rack.Valid() && rack.Consistent()
      requires rack.total <= RACK_SIZE && rack.counts != letterBaseIndex && rack.counts != reversedBitMap
      requires Covers(klv.Nodes(), klv.Counts(), klv.leaves, rack.counts[..])
      modifies this`rackSize, this`currentIndex, letterBaseIndex, reversedBitMap, leaveValues, bestLeaves
      ensures rackSize == rack.total && currentIndex == 0
      ensures Env(klv, rack.counts[..]) && Below(rack.counts[..], rack.counts[..])
      ensures TableFor(klv, rack.counts[..]) && BestFor(klv, rack.counts[..])
      ensures GetCurrent() == ValueOf(klv, rack.counts[..], rack.counts[..])
      ensures bestLeaves[rack.total] >= leaveValues[0]
    {
      Prepare(rack);
      Fill(klv, rack);
    }

    /** The rest of leave_map_init: copy the rack, set the index to 0, the
      * index of the full rack, and populate from the copy. */
    method Fill(klv: Klv, rack: Rack)
      requires Env(klv, rack.counts[..]) && rack.Valid() && rack.Consistent()
      requires forall s :: 0 <= s <= RACK_SIZE ==> bestLeaves[s] == NO_LEAVE
      modifies this`currentIndex, leaveValues, bestLeaves
      ensures currentIndex == 0 && Below(rack.counts[..], rack.counts[..])
      ensures TableFor(klv, rack.counts[..]) && BestFor(klv, rack.counts[..])
      ensures leaveValues[0] == ValueOf(klv, rack.counts[..], rack.counts[..])
      ensures bestLeaves[rack.total] >= leaveValues[0]
    {
      ghost var cs: seq<nat> := rack.counts[..];
      var temp := CopyOf(rack);
      currentIndex := 0;
      IndexToWhole(cs, ALPHABET_SIZE);
      assert temp.counts[..] == cs && temp.Consistent() && currentIndex == IndexOf(cs, cs);
      ghost var L0, B0 := leaveValues[..], bestLeaves[..];
      Populate(klv, temp, 0, cs);
      FilledTable(klv, cs, L0);
      FilledBest(klv, cs, B0);
    }

    /** populate_leave_values(0) from the whole rack orig fills leave_values. */
    lemma FilledTable(klv: Klv, orig: seq<nat>, L0: seq<int>)
      requires Env(klv, orig) && |L0| == LEAVE_MAP_SIZE
      requires leaveValues[..] == Stored(L0, Visits(orig, 0), orig, klv.Nodes(), klv.Counts(), klv.leaves)
      ensures TableFor(klv, orig)
      ensures Below(orig, orig) && leaveValues[0] == ValueOf(klv, orig, orig)
    {
      TableFilled(L0, orig, klv.Nodes(), klv.Counts(), klv.leaves);
      IndexToWhole(orig, ALPHABET_SIZE);
      assert Below(orig, orig);
    }

    /** ... and best_leaves, from -32767. */
    lemma FilledBest(klv: Klv, orig: seq<nat>, B0: seq<int>)
      requires Env(klv, orig) && |B0| == RACK_SIZE + 1
      requires forall s :: 0 <= s <= RACK_SIZE ==> B0[s] == NO_LEAVE
      requires bestLeaves[..] == Best(B0, Visits(orig, 0), klv.Nodes(), klv.Counts(), klv.leaves)
      ensures BestFor(klv, orig)
      ensures Below(orig, orig) && bestLeaves[SumTo(orig, ALPHABET_SIZE)] >= ValueOf(klv, orig, orig)
    {
      BestFilled(B0, orig, klv.Nodes(), klv.Counts(), klv.leaves);
      assert Below(orig, orig);
    }

    /** leave_map_init, then the first leave_map_take_letter of a move as
      * move generation makes it (a shift of 31 or more is undefined and not
      * taken): the leave read back is still the whole rack's. */
    method FirstTakeAsWritten(klv: Klv, rack: Rack, letter: MachineLetter, countAfter: Byte)
      requires Valid() && klv.Valid() && klv.Ready() && rack.Valid() && rack.Consistent()
      requires rack.total <= RACK_SIZE && rack.counts != letterBaseIndex && rack.counts != reversedBitMap
      requires Covers(klv.Nodes(), klv.Counts(), klv.leaves, rack.counts[..]) && IsLetter(letter)
      modifies this`rackSize, this`currentIndex, letterBaseIndex, reversedBitMap, leaveValues, bestLeaves
      ensures currentIndex == 0 && GetCurrent() == ValueOf(klv, rack.counts[..], rack.counts[..])
    {
      Init(klv, rack);
      var b := BitIndex(letter, countAfter);
      if b < 31 {
        FirstTakeKeepsWholeRack(b);
        TakeLetter(letter, countAfter);
      }
    }

    /** The part of leave_map_init before the table is filled: the bit maps,
      * the rack size, the index with every tile's bit set, and best_leaves
      * at -32767. */
    method Prepare(rack: Rack)
      requires Valid() && rack.Valid() && rack.Consistent()
      requires rack.total <= RACK_SIZE && rack.counts != letterBaseIndex && rack.counts != reversedBitMap
      modifies this`rackSize, this`currentIndex, letterBaseIndex, reversedBitMap, bestLeaves
      ensures MapsFor(rack.counts[..]) && rackSize == rack.total
      ensures currentIndex == Pow2(rack.total) - 1
      ensures forall s :: 0 <= s <= RACK_SIZE ==> bestLeaves[s] == NO_LEAVE
    {
      BuildMaps(rack);
      rackSize := rack.total;
      Pow2Mono(rack.total, 7);
      currentIndex := Pow2(rack.total) - 1;
      ResetBest();
    }

    /** Every best_leaves entry starts at -32767. */
    method ResetBest()
      requires Valid()
      modifies bestLeaves
      ensures forall s :: 0 <= s <= RACK_SIZE ==> bestLeaves[s] == NO_LEAVE
    {
      var i := 0;
      while i <= RACK_SIZE
        invariant 0 <= i <= RACK_SIZE + 1
        invariant forall s :: 0 <= s < i ==> bestLeaves[s] == NO_LEAVE
      {
        bestLeaves[i] := NO_LEAVE;
        i := i + 1;
      }
    }

    /** The first loop of leave_map_init: letter l's block starts at the sum
      * of the counts below it, and slot k of the block holds the bit of slot
      * count - 1 - k. */
    method BuildMaps(rack: Rack)
      requires Valid() && rack.Valid() && rack.Consistent() && rack.total <= RACK_SIZE
      requires rack.counts != letterBaseIndex && rack.counts != reversedBitMap
      modifies letterBaseIndex, reversedBitMap
      ensures MapsFor(rack.counts[..])
    {
      ghost var cs: seq<nat> := rack.counts[..];
      var currentBase := 0;
      var ml := 0;
      while ml < ALPHABET_SIZE
        invariant 0 <= ml <= ALPHABET_SIZE && currentBase == SumTo(cs, ml)
        invariant Placed(cs, ml)
      {
        SumToBounds(cs, ALPHABET_SIZE, ml);
        var count := rack.counts[ml];
        assert count == cs[ml] && SumTo(cs, ml + 1) == currentBase + count;
        PlaceLetter(ml, count, currentBase, cs);
        currentBase := currentBase + count;
        ml := ml + 1;
      }
    }

    /** One round of that loop: letter ml's base, and its block of reversed
      * bits when the rack holds it. */
    method PlaceLetter(ml: MachineLetter, count: Byte, currentBase: Byte, ghost cs: seq<nat>)
      requires Valid() && |cs| == ALPHABET_SIZE && SumTo(cs, ALPHABET_SIZE) <= RACK_SIZE
      requires ml < ALPHABET_SIZE && count == cs[ml] && currentBase == SumTo(cs, ml)
      requires currentBase + count <= RACK_SIZE && Placed(cs, ml)
      modifies letterBaseIndex, reversedBitMap
      ensures Placed(cs, ml + 1)
    {
      ghost var B := letterBaseIndex[..];
      ghost var R := reversedBitMap[..];
      if count > 0 {
        letterBaseIndex[ml] := currentBase;
        FillBlock(currentBase, count);
      } else {
        letterBaseIndex[ml] := 0;
      }
      ghost var stored: Byte := if count > 0 then currentBase else 0;
      assert letterBaseIndex[..] == B[ml := stored];
      LayoutStep(cs, ml, currentBase, B, R, reversedBitMap[..]);
    }

    /** The inner loop of leave_map_init's first loop: the block of count
      * slots from base holds the bits of the block in reverse order. */
    method FillBlock(base: Byte, count: Byte)
      requires Valid() && base + count <= RACK_SIZE
      modifies reversedBitMap
      ensures reversedBitMap[..base] == old(reversedBitMap[..base])
      ensures forall s :: base <= s < base + count ==> reversedBitMap[s] == Pow2(2 * base + count - 1 - s)
    {
      var j := 0;
      while j < count
        invariant 0 <= j <= count
        invariant reversedBitMap[..base] == old(reversedBitMap[..base])
        invariant forall s :: base <= s < base + j ==> reversedBitMap[s] == Pow2(2 * base + count - 1 - s)
      {
        var bitIndex := base + count - j - 1;
        Pow2Mono(bitIndex, 7);
        reversedBitMap[base + j] := Pow2(bitIndex);
        j := j + 1;
      }
    }

    /** populate_leave_values: store the leave value of the tiles left on
      * temp at the current index and raise best_leaves for their number,
      * then for each letter from start on that temp still holds, take one
      * copy, set its reversed bit, recurse from that letter, and restore.
      * Afterwards temp and the current index are as before, and the tables
      * are as if the leaves of Visits had been written in turn. */
    method Populate(klv: Klv, temp: Rack, start: nat, ghost orig: seq<nat>)
      requires Env(klv, orig)
      requires temp.Valid() && temp.Consistent() && temp.counts != letterBaseIndex && temp.counts != reversedBitMap
      requires Below(temp.counts[..], orig) && start <= ALPHABET_SIZE
      requires currentIndex == IndexOf(orig, temp.counts[..])
      modifies this`currentIndex, leaveValues, bestLeaves, temp, temp.counts
      ensures temp.counts[..] == old(temp.counts[..]) && temp.total == old(temp.total)
      ensures currentIndex == old(currentIndex)
      ensures leaveValues[..] ==
        Stored(old(leaveValues[..]), Visits(old(temp.counts[..]), start), orig, klv.Nodes(), klv.Counts(), klv.leaves)
      ensures bestLeaves[..] ==
        Best(old(bestLeaves[..]), Visits(old(temp.counts[..]), start), klv.Nodes(), klv.Counts(), klv.leaves)
      decreases temp.total, 1, 1
    {
      ghost var cs: seq<nat> := temp.counts[..];
      ghost var L0, B0 := leaveValues[..], bestLeaves[..];
      ghost var kwg, wc, lv := klv.Nodes(), klv.Counts(), klv.leaves;
      StoreCurrent(klv, temp, orig);
      var ml := start;
      while ml < ALPHABET_SIZE
        invariant start <= ml <= ALPHABET_SIZE
        invariant temp.counts[..] == cs && temp.total == old(temp.total)
        invariant currentIndex == old(currentIndex)
        invariant leaveValues[..] == Stored(L0, [cs] + VisitsTo(cs, start, ml), orig, kwg, wc, lv)
        invariant bestLeaves[..] == Best(B0, [cs] + VisitsTo(cs, start, ml), kwg, wc, lv)
      {
        NextLetter(klv, temp, start, ml, orig, cs, L0, B0);
        ml := ml + 1;
      }
    }

    /** One round of populate_leave_values' loop: the branch for letter ml
      * when temp holds it, which writes the leaves reached through ml. */
    method NextLetter(klv: Klv, temp: Rack, start: nat, ml: MachineLetter, ghost orig: seq<nat>,
                      ghost cs: seq<nat>, ghost L0: seq<int>, ghost B0: seq<int>)
      requires Env(klv, orig)
      requires temp.Valid() && temp.Consistent() && temp.counts != letterBaseIndex && temp.counts != reversedBitMap
      requires temp.counts[..] == cs && Below(cs, orig) && start <= ml < ALPHABET_SIZE
      requires currentIndex == IndexOf(orig, cs)
      requires |L0| == LEAVE_MAP_SIZE && |B0| == RACK_SIZE + 1
      requires leaveValues[..] == Stored(L0, [cs] + VisitsTo(cs, start, ml), orig, klv.Nodes(), klv.Counts(), klv.leaves)
      requires bestLeaves[..] == Best(B0, [cs] + VisitsTo(cs, start, ml), klv.Nodes(), klv.Counts(), klv.leaves)
      modifies this`currentIndex, leaveValues, bestLeaves, temp, temp.counts
      ensures temp.counts[..] == cs && temp.total == old(temp.total) && currentIndex == old(currentIndex)
      ensures leaveValues[..] == Stored(L0, [cs] + VisitsTo(cs, start, ml + 1), orig, klv.Nodes(), klv.Counts(), klv.leaves)
      ensures bestLeaves[..] == Best(B0, [cs] + VisitsTo(cs, start, ml + 1), klv.Nodes(), klv.Counts(), klv.leaves)
      decreases temp.total, 1, 0
    {
      if temp.counts[ml] > 0 {
        ghost var L1, B1 := leaveValues[..], bestLeaves[..];
        TryLetter(klv, temp, ml, orig);
        BranchAppends(L0, B0, L1, B1, leaveValues[..], bestLeaves[..], cs, start, ml, orig, klv.Nodes(), klv.Counts(), klv.leaves);
      } else {
        assert VisitsTo(cs, start, ml + 1) == VisitsTo(cs, start, ml);
      }
    }

    /** The first half of populate_leave_values: the leave value of temp
      * at the current index, and best_leaves raised to it for temp's
      * number of tiles. */
    method StoreCurrent(klv: Klv, temp: Rack, ghost orig: seq<nat>)
      requires Env(klv, orig)
      requires temp.Valid() && temp.Consistent() && Below(temp.counts[..], orig)
      requires currentIndex == IndexOf(orig, temp.counts[..])
      modifies leaveValues, bestLeaves
      ensures leaveValues[..] == Stored(old(leaveValues[..]), [temp.counts[..]], orig, klv.Nodes(), klv.Counts(), klv.leaves)
      ensures bestLeaves[..] == Best(old(bestLeaves[..]), [temp.counts[..]], klv.Nodes(), klv.Counts(), klv.leaves)
    {
      ghost var cs: seq<nat> := temp.counts[..];
      SumToBelow(cs, orig, ALPHABET_SIZE);
      IndexInMap(orig, cs);
      var value := klv.GetLeaveValue(temp);
      assert value == TableValue(klv.Nodes(), klv.Counts(), klv.leaves, cs);
      leaveValues[currentIndex] := value;
      var leaveSize := temp.total;
      if value > bestLeaves[leaveSize] {
        bestLeaves[leaveSize] := value;
      }
    }

    /** One branch of populate_leave_values: take a copy of letter ml from
      * temp, or its reversed bit into the index, recurse, then mask the bit
      * out and put the saved count back. */
    method TryLetter(klv: Klv, temp: Rack, ml: MachineLetter, ghost orig: seq<nat>)
      requires Env(klv, orig)
      requires temp.Valid() && temp.Consistent() && temp.counts != letterBaseIndex && temp.counts != reversedBitMap
      requires Below(temp.counts[..], orig) && IsLetter(ml) && temp.counts[ml] > 0
      requires currentIndex == IndexOf(orig, temp.counts[..])
      modifies this`currentIndex, leaveValues, bestLeaves, temp, temp.counts
      ensures temp.counts[..] == old(temp.counts[..]) && temp.total == old(temp.total)
      ensures currentIndex == old(currentIndex)
      ensures leaveValues[..] == Stored(old(leaveValues[..]), Visits(old(temp.counts[..])[ml := old(temp.counts[ml]) - 1], ml),
        orig, klv.Nodes(), klv.Counts(), klv.leaves)
      ensures bestLeaves[..] == Best(old(bestLeaves[..]), Visits(old(temp.counts[..])[ml := old(temp.counts[ml]) - 1], ml),
        klv.Nodes(), klv.Counts(), klv.leaves)
      decreases temp.total, 0, 0
    {
      ghost var c0 := currentIndex;
      var countBefore, reversedBit := TakeTile(temp, ml, orig);
      Descend(klv, temp, ml, countBefore, reversedBit, orig, c0);
      assert old(temp.counts[..])[ml := countBefore - 1][ml := countBefore] == old(temp.counts[..]);
    }

    /** The rest of a branch once ml is off temp: populate from ml on, then
      * put the tile back and clear its bit again. */
    method Descend(klv: Klv, temp: Rack, ml: MachineLetter, countBefore: Byte, reversedBit: Byte, ghost orig: seq<nat>, ghost c0: nat)
      requires Env(klv, orig)
      requires temp.Valid() && temp.Consistent() && temp.counts != letterBaseIndex && temp.counts != reversedBitMap
      requires Below(temp.counts[..], orig) && IsLetter(ml) && 0 < countBefore <= orig[ml] && temp.total < 255
      requires currentIndex == IndexOf(orig, temp.counts[..])
      requires reversedBit == Pow2(BitOf(orig, ml, countBefore - 1))
      requires currentIndex == c0 + reversedBit && !HasBit(c0, BitOf(orig, ml, countBefore - 1))
      modifies this`currentIndex, leaveValues, bestLeaves, temp, temp.counts
      ensures temp.counts[..] == old(temp.counts[..])[ml := countBefore] && temp.total == old(temp.total) + 1
      ensures currentIndex == c0
      ensures leaveValues[..] == Stored(old(leaveValues[..]), Visits(old(temp.counts[..]), ml), orig, klv.Nodes(), klv.Counts(), klv.leaves)
      ensures bestLeaves[..] == Best(old(bestLeaves[..]), Visits(old(temp.counts[..]), ml), klv.Nodes(), klv.Counts(), klv.leaves)
      decreases temp.total, 2, 0
    {
      Populate(klv, temp, ml, orig);
      RestoreTile(temp, ml, countBefore, reversedBit, orig);
    }

    /** The first half of a branch: one copy of ml leaves temp and its
      * reversed bit, clear before, joins the index, which then names the
      * smaller leave. */
    method TakeTile(temp: Rack, ml: MachineLetter, ghost orig: seq<nat>) returns (countBefore: Byte, reversedBit: Byte)
      requires Valid() && MapsFor(orig)
      requires temp.Valid() && temp.Consistent() && temp.counts != letterBaseIndex && temp.counts != reversedBitMap
      requires Below(temp.counts[..], orig) && IsLetter(ml) && temp.counts[ml] > 0
      requires currentIndex == IndexOf(orig, temp.counts[..])
      modifies this`currentIndex, temp, temp.counts
      ensures countBefore == old(temp.counts[ml]) > 0
      ensures temp.counts[..] == old(temp.counts[..])[ml := countBefore - 1] && temp.total == old(temp.total) - 1
      ensures temp.Consistent() && Below(temp.counts[..], orig)
      ensures reversedBit == Pow2(BitOf(orig, ml, countBefore - 1))
      ensures !HasBit(old(currentIndex), BitOf(orig, ml, countBefore - 1))
      ensures currentIndex == old(currentIndex) + reversedBit
      ensures currentIndex == IndexOf(orig, temp.counts[..])
    {
      ghost var cs: seq<nat> := temp.counts[..];
      countBefore := DropTile(temp, ml, orig);
      var base := letterBaseIndex[ml];
      var offset := temp.counts[ml];
      assert letterBaseIndex[..][ml] == base == SumTo(orig, ml);
      assert base as int + offset == Slot(orig, ml, offset);
      var bitIndex := base + offset;
      ghost var p := BitOf(orig, ml, offset);
      assert reversedBitMap[..][Slot(orig, ml, offset)] == Pow2(p);
      reversedBit := reversedBitMap[bitIndex];
      assert reversedBit == Pow2(p);
      ghost var c0 := currentIndex;
      assert cs[ml] - 1 == offset;
      IndexTake(orig, cs, ml);
      IndexBit(orig, cs, ml, offset);
      IndexInMap(orig, temp.counts[..]);
      OrPow(c0, p);
      currentIndex := Or(currentIndex, reversedBit);
    }

    /** The rack side of taking a tile: its count and the total go down by one. */
    static method DropTile(temp: Rack, ml: MachineLetter, ghost orig: seq<nat>) returns (countBefore: Byte)
      requires temp.Valid() && temp.Consistent() && Below(temp.counts[..], orig)
      requires IsLetter(ml) && temp.counts[ml] > 0
      modifies temp, temp.counts
      ensures countBefore == old(temp.counts[ml]) > 0
      ensures temp.counts[..] == old(temp.counts[..])[ml := countBefore - 1] && temp.total == old(temp.total) - 1
      ensures temp.Consistent() && Below(temp.counts[..], orig)
    {
      ghost var cs: seq<nat> := temp.counts[..];
      countBefore := temp.counts[ml];
      SumToBounds(cs, ALPHABET_SIZE, ml);
      SumToUpdate(cs, ALPHABET_SIZE, ml, countBefore - 1);
      temp.counts[ml] := temp.counts[ml] - 1;
      temp.total := temp.total - 1;
      assert temp.counts[..] == cs[ml := countBefore - 1];
    }

    /** The second half: the bit leaves the index again and the saved count
      * and the total go back. */
    method RestoreTile(temp: Rack, ml: MachineLetter, countBefore: Byte, reversedBit: Byte, ghost orig: seq<nat>)
      requires Valid() && |orig| == ALPHABET_SIZE && temp.Valid() && IsLetter(ml)
      requires 0 < countBefore <= orig[ml] && temp.total < 255
      requires reversedBit == Pow2(BitOf(orig, ml, countBefore - 1))
      requires currentIndex >= reversedBit && !HasBit(currentIndex - reversedBit, BitOf(orig, ml, countBefore - 1))
      modifies this`currentIndex, temp, temp.counts
      ensures currentIndex == old(currentIndex) - reversedBit
      ensures temp.counts[..] == old(temp.counts[..])[ml := countBefore] && temp.total == old(temp.total) + 1
    {
      ghost var p := BitOf(orig, ml, countBefore - 1);
      AddBit(currentIndex - reversedBit, p, p);
      AndNotPow(currentIndex, p);
      currentIndex := AndNot(currentIndex, reversedBit);
      temp.counts[ml] := countBefore;
      temp.total := temp.total + 1;
    }
  }
}
