// Racks, the bag, the shuffling generator, move scoring and the turn
// transitions of src/game.c.
module Game {
  import opened Defs
  import opened Equity
  import opened BoardTables
  import opened Board
  import opened Wrappers

  // ---------------------------------------------------------------------
  // Letters spelled out from per-letter counts

  /** k copies of letter l. */
  function Repeat(l: MachineLetter, k: nat): (r: seq<MachineLetter>)
    ensures |r| == k
  {
    if k == 0 then [] else Repeat(l, k - 1) + [l]
  }

  /** The letters 0..n-1 in ascending order, each as often as its count says:
    * the order in which rack_to_string lists a rack and bag_init fills the bag. */
  function Expand(counts: seq<nat>, n: nat): (r: seq<MachineLetter>)
    requires n <= |counts| && n <= 256
    ensures |r| == SumTo(counts, n)
  {
    if n == 0 then [] else Expand(counts, n - 1) + Repeat(n - 1, counts[n - 1])
  }

  lemma {:induction false} RepeatCount(l: MachineLetter, k: nat, x: MachineLetter)
    ensures multiset(Repeat(l, k))[x] == if x == l then k else 0
  {
    if k > 0 {
      RepeatCount(l, k - 1, x);
    }
  }

  /** The spelled-out letters hold each letter below n exactly as often as its count. */
  lemma {:induction false} ExpandCount(counts: seq<nat>, n: nat, x: MachineLetter)
    requires n <= |counts| && n <= 256
    ensures multiset(Expand(counts, n))[x] == if x < n then counts[x] else 0
  {
    if n > 0 {
      ExpandCount(counts, n - 1, x);
      RepeatCount(n - 1, counts[n - 1], x);
    }
  }

  /** The spelled-out letters never decrease. */
  lemma {:induction false} ExpandSorted(counts: seq<nat>, n: nat)
    requires n <= |counts| && n <= 256
    ensures forall i, j :: 0 <= i <= j < |Expand(counts, n)| ==> Expand(counts, n)[i] <= Expand(counts, n)[j]
    ensures forall i :: 0 <= i < |Expand(counts, n)| ==> Expand(counts, n)[i] < n
  {
    if n > 0 {
      ExpandSorted(counts, n - 1);
      RepeatAll(n - 1, counts[n - 1]);
    }
  }

  lemma {:induction false} RepeatAll(l: MachineLetter, k: nat)
    ensures forall i :: 0 <= i < k ==> Repeat(l, k)[i] == l
  {
    if k > 0 {
      RepeatAll(l, k - 1);
    }
  }

  /** The letters spelled out from a full table of counts: each letter as
    * often as its count says, in ascending order. */
  lemma ExpandFacts(counts: seq<nat>, s: seq<MachineLetter>)
    requires |counts| == ALPHABET_SIZE && s == Expand(counts, ALPHABET_SIZE)
    ensures forall l :: 0 <= l < ALPHABET_SIZE ==> multiset(s)[l] == counts[l]
    ensures forall i, j :: 0 <= i <= j < |s| ==> s[i] <= s[j]
    ensures forall i :: 0 <= i < |s| ==> IsLetter(s[i])
  {
    ExpandSorted(counts, ALPHABET_SIZE);
    forall l | 0 <= l < ALPHABET_SIZE
      ensures multiset(s)[l] == counts[l]
    {
      ExpandCount(counts, ALPHABET_SIZE, l);
    }
  }

  /** Two count tables spell out the same multiset exactly when they agree. */
  lemma SameCounts(a: seq<nat>, b: seq<nat>)
    requires |a| == |b| == ALPHABET_SIZE
    ensures multiset(Expand(a, ALPHABET_SIZE)) == multiset(Expand(b, ALPHABET_SIZE)) <==> a == b
  {
    if multiset(Expand(a, ALPHABET_SIZE)) == multiset(Expand(b, ALPHABET_SIZE)) {
      forall x | 0 <= x < ALPHABET_SIZE
        ensures a[x] == b[x]
      {
        ExpandCount(a, ALPHABET_SIZE, x);
        ExpandCount(b, ALPHABET_SIZE, x);
      }
    }
  }

  /** A count never exceeds the sum it is part of, and the sums grow with n. */
  lemma {:induction false} SumToBounds(counts: seq<nat>, n: nat, m: nat)
    requires m <= n <= |counts|
    ensures SumTo(counts, m) <= SumTo(counts, n)
    ensures m < n ==> SumTo(counts, m) + counts[m] <= SumTo(counts, n)
  {
    if m < n {
      SumToBounds(counts, n - 1, m);
    }
  }

  /** Changing one count changes the sum by the same amount. */
  lemma {:induction false} SumToUpdate(counts: seq<nat>, n: nat, t: nat, v: nat)
    requires t < n <= |counts|
    ensures SumTo(counts[t := v], n) == SumTo(counts, n) - counts[t] + v
  {
    if t < n - 1 {
      SumToUpdate(counts, n - 1, t, v);
    } else {
      assert forall k :: 0 <= k < n - 1 ==> counts[t := v][k] == counts[k];
      SumToSame(counts[t := v], counts, n - 1);
    }
  }

  lemma {:induction false} SumToSame(a: seq<nat>, b: seq<nat>, n: nat)
    requires n <= |a| && n <= |b| && forall k :: 0 <= k < n ==> a[k] == b[k]
    ensures SumTo(a, n) == SumTo(b, n)
  {
    if n > 0 {
      SumToSame(a, b, n - 1);
    }
  }

  /** The j-th copy of letter l sits right after the copies of the letters below l. */
  lemma {:induction false} ExpandAt(counts: seq<nat>, n: nat, l: nat, j: nat)
    requires n <= |counts| && n <= 256 && l < n && j < counts[l]
    ensures SumTo(counts, l) + j < |Expand(counts, n)|
    ensures Expand(counts, n)[SumTo(counts, l) + j] == l
  {
    SumToBounds(counts, n, l);
    if l == n - 1 {
      RepeatAll(l, counts[l]);
    } else {
      ExpandAt(counts, n - 1, l, j);
      SumToBounds(counts, n - 1, l);
    }
  }

  /** The character rack_to_string prints for a letter: '?' for the blank. */
  function LetterChar(l: MachineLetter): (ch: char)
    requires IsLetter(l)
    ensures l == BLANK_ML <==> ch == '?'
    ensures l != BLANK_ML ==> 'A' <= ch <= 'Z' && ch as int - 'A' as int == l - 1
  {
    if l == BLANK_ML then '?' else ('A' as int + l - 1) as char
  }

  // ---------------------------------------------------------------------
  // The shuffling generator

  /** The three xorshift stages of rng_next: state ^= state << 7, then
    * state ^= state >> 9, then state ^= state << 8. */
  function Step7(x: bv16): bv16 { x ^ (x << 7) }
  function Step9(x: bv16): bv16 { x ^ (x >> 9) }
  function Step8(x: bv16): bv16 { x ^ (x << 8) }

  /** One rng_next step. */
  function Xorshift(x: bv16): bv16 { Step8(Step9(Step7(x))) }

  /** Undoes the first stage: the bits shifted by 14 cancel what a second
    * shift by 7 brings back. */
  function Undo7(y: bv16): bv16 { y ^ (y << 7) ^ (y << 14) }

  /** Undoes one xorshift step; the shift-by-9 and shift-by-8 stages undo themselves. */
  function Unxorshift(y: bv16): bv16 { Undo7(Step9(Step8(y))) }

  lemma UndoStep7(x: bv16)
    ensures Undo7(Step7(x)) == x
  {
  }

  lemma UndoStep9(x: bv16)
    ensures Step9(Step9(x)) == x
  {
  }

  lemma UndoStep8(x: bv16)
    ensures Step8(Step8(x)) == x
  {
  }

  /** The generator step is a bijection on 16-bit states: it loses nothing,
    * so a non-zero state stays non-zero and the sequence never sticks at 0. */
  lemma XorshiftRoundTrip(x: bv16)
    ensures Unxorshift(Xorshift(x)) == x
    ensures x != 0 ==> Xorshift(x) != 0
  {
    UndoStep7(x);
    UndoStep9(Step7(x));
    UndoStep8(Step9(Step7(x)));
    assert Unxorshift(0) == 0;
  }

  /** The high half of a 16-bit value times n is below n. */
  lemma HighHalfBelow(x: int, n: int)
    requires 0 <= x < 0x1_0000 && 0 <= n
    ensures 0 <= x * n / 0x1_0000 && (n >= 1 ==> x * n / 0x1_0000 < n)
  {
    assert 0 <= x * n <= 0xFFFF * n;
  }

  /** What rng_range(n) returns from the state s: the high half of the next
    * state times n. */
  function RangeOf(s: bv16, n: int): (r: int)
    requires 0 <= n < 0x1_0000
    ensures 0 <= r && (n == 0 ==> r == 0) && (n >= 1 ==> r < n)
  {
    HighHalfBelow(Xorshift(s) as int, n);
    Xorshift(s) as int * n / 0x1_0000
  }

  /** The state after k xorshift steps from s. */
  function Steps(s: bv16, k: nat): bv16
    decreases k
  {
    if k == 0 then s else Steps(Xorshift(s), k - 1)
  }

  /** The state of rng_state, a 16-bit static in the source. */
  class Rng {
    var state: bv16

    constructor ()
      ensures state == 12345
    {
      state := 12345;
    }

    /** rng_seed: the seed times Knuth's constant plus one, cut to 16 bits
      * with the low bit forced, so the state is odd and never 0. */
    method Seed(seed: int)
      requires 0 <= seed < 0x1_0000_0000
      modifies this
      ensures state == (((seed * 2654435761 + 1) % 0x1_0000_0000 % 0x1_0000) as bv16) | 1
      ensures state & 1 == 1 && state != 0
    {
      var mixed := (seed * 2654435761 + 1) % 0x1_0000_0000;
      state := ((mixed % 0x1_0000) as bv16) | 1;
    }

    /** rng_next: one xorshift step, returning the new state. */
    method Next() returns (r: bv16)
      modifies this
      ensures state == Xorshift(old(state)) && r == state
    {
      state := Step7(state);
      state := Step9(state);
      state := Step8(state);
      r := state;
    }

    /** rng_range: the high half of next * n, which lies in [0, n). */
    method Range(n: int) returns (r: int)
      requires 0 <= n < 0x1_0000
      modifies this
      ensures state == Xorshift(old(state))
      ensures r == RangeOf(old(state), n)
      ensures 0 <= r && (n == 0 ==> r == 0) && (n >= 1 ==> r < n)
    {
      var x := Next();
      var product := x as int * n;
      r := product / 0x1_0000;
      HighHalfBelow(x as int, n);
    }
  }

  // ---------------------------------------------------------------------
  // Racks

  /** A player's rack: a uint8_t count per letter (index 0 the blank) and a
    * uint8_t total. */
  class Rack {
    const counts: array<Byte>
    var total: Byte

    ghost predicate Valid()
      reads this
    {
      counts.Length == ALPHABET_SIZE
    }

    /** The tiles on the rack. */
    ghost function Tiles(): multiset<MachineLetter>
      requires Valid()
      reads this, counts
    {
      RackTiles(counts[..])
    }

    /** The total agrees with the counts. */
    ghost predicate Consistent()
      requires Valid()
      reads this, counts
    {
      total == SumTo(counts[..], ALPHABET_SIZE)
    }

    constructor ()
      ensures Valid() && Consistent() && total == 0 && fresh(counts)
      ensures forall l :: 0 <= l < ALPHABET_SIZE ==> counts[l] == 0
    {
      counts := new Byte[ALPHABET_SIZE](_ => 0);
      total := 0;
      new;
      SumToZero(counts[..], ALPHABET_SIZE);
    }

    /** rack_init: every count and the total are 0. */
    method Init()
      requires Valid()
      modifies this, counts
      ensures Valid() && Consistent() && total == 0
      ensures forall l :: 0 <= l < ALPHABET_SIZE ==> counts[l] == 0
    {
      var l := 0;
      while l < ALPHABET_SIZE
        invariant 0 <= l <= ALPHABET_SIZE
        invariant forall k :: 0 <= k < l ==> counts[k] == 0
      {
        counts[l] := 0;
        l := l + 1;
      }
      total := 0;
      SumToZero(counts[..], ALPHABET_SIZE);
    }

    /** rack_add_tile: the letter's count and the total each go up by one,
      * as bytes. Below 255 tiles nothing wraps and the total stays right. */
    method AddTile(tile: MachineLetter)
      requires Valid() && IsLetter(tile)
      modifies this, counts
      ensures counts[..] == old(counts[..])[tile := Inc8(old(counts[tile]))]
      ensures total == Inc8(old(total))
      ensures old(Consistent()) && old(total) < 255 ==> Consistent()
    {
      ghost var before := counts[..];
      if Consistent() && total < 255 {
        SumToBounds(before, ALPHABET_SIZE, tile);
        SumToUpdate(before, ALPHABET_SIZE, tile, before[tile] + 1);
      }
      counts[tile] := Inc8(counts[tile]);
      total := Inc8(total);
      assert counts[..] == before[tile := Inc8(before[tile])];
    }

    /** rack_remove_tile: with no copy of the letter it reports failure and
      * changes nothing; otherwise the count and the total go down by one. */
    method RemoveTile(tile: MachineLetter) returns (removed: bool)
      requires Valid() && IsLetter(tile)
      modifies this, counts
      ensures removed <==> old(counts[tile]) > 0
      ensures !removed ==> counts[..] == old(counts[..]) && total == old(total)
      ensures removed ==> counts[..] == old(counts[..])[tile := old(counts[tile]) - 1]
      ensures removed ==> total == Dec8(old(total))
      ensures old(Consistent()) ==> Consistent()
    {
      ghost var before := counts[..];
      if counts[tile] == 0 {
        return false;
      }
      SumToUpdate(before, ALPHABET_SIZE, tile, before[tile] - 1);
      counts[tile] := counts[tile] - 1;
      total := Dec8(total);
      assert counts[..] == before[tile := before[tile] - 1];
      return true;
    }

    /** rack_has_tile: whether a copy of the letter is on the rack. */
    function HasTile(tile: MachineLetter): (r: bool)
      requires Valid() && IsLetter(tile)
      reads this, counts
      ensures r <==> tile in Tiles()
    {
      ExpandCount(counts[..], ALPHABET_SIZE, tile);
      counts[tile] > 0
    }

    /** rack_to_string: one character per tile in ascending letter order,
      * then a NUL. */
    method ToString(buf: array<char>)
      requires Valid() && buf.Length > SumTo(counts[..], ALPHABET_SIZE)
      modifies buf
      ensures var E := Expand(counts[..], ALPHABET_SIZE);
        (forall i :: 0 <= i < |E| ==> IsLetter(E[i]) && buf[i] == LetterChar(E[i])) && buf[|E|] == '\0'
    {
      ghost var cs := counts[..];
      ghost var E := Expand(cs, ALPHABET_SIZE);
      ExpandSorted(cs, ALPHABET_SIZE);
      var pos := 0;
      var letter := 0;
      while letter < ALPHABET_SIZE
        invariant 0 <= letter <= ALPHABET_SIZE
        invariant pos == SumTo(cs, letter) <= |E|
        invariant forall i :: 0 <= i < pos ==> IsLetter(E[i]) && buf[i] == LetterChar(E[i])
      {
        SumToBounds(cs, ALPHABET_SIZE, letter);
        var j := 0;
        while j < counts[letter]
          invariant 0 <= j <= counts[letter]
          invariant pos == SumTo(cs, letter) + j <= |E|
          invariant forall i :: 0 <= i < pos ==> IsLetter(E[i]) && buf[i] == LetterChar(E[i])
        {
          ExpandAt(cs, ALPHABET_SIZE, letter, j);
          if letter == 0 {
            buf[pos] := '?';
          } else {
            buf[pos] := ('A' as int + letter - 1) as char;
          }
          pos := pos + 1;
          j := j + 1;
        }
        letter := letter + 1;
      }
      buf[pos] := '\0';
    }
  }

  /** All-zero counts sum to 0. */
  lemma {:induction false} SumToZero(counts: seq<nat>, n: nat)
    requires n <= |counts| && forall k :: 0 <= k < n ==> counts[k] == 0
    ensures SumTo(counts, n) == 0
  {
    if n > 0 {
      SumToZero(counts, n - 1);
    }
  }

  // ---------------------------------------------------------------------
  // The bag

  /** The bag: a 100-slot tile array whose first count slots hold the
    * undrawn tiles, drawn from the top. */
  /** Slots i and j of t exchanged. */
  function Swap(t: seq<MachineLetter>, i: int, j: int): (r: seq<MachineLetter>)
    requires 0 <= i < |t| && 0 <= j < |t|
    ensures |r| == |t|
    ensures r[i] == t[j] && r[j] == t[i]
    ensures forall k :: 0 <= k < |t| && k != i && k != j ==> r[k] == t[k]
  {
    t[i := t[j]][j := t[i]]
  }

  /** bag_shuffle as a function of the undrawn tiles t and the generator's
    * state s: for i from the top down to 1, swap slot i with slot
    * rng_range(i + 1). The result is the shuffled tiles and the final state. */
  function FisherYates(t: seq<MachineLetter>, s: bv16, i: int): (r: (seq<MachineLetter>, bv16))
    requires i < |t| < 0x1_0000
    ensures |r.0| == |t|
    decreases i
  {
    if i <= 0 then (t, s)
    else FisherYates(Swap(t, i, RangeOf(s, i + 1)), Xorshift(s), i - 1)
  }

  /** One round of the shuffle: the top slot swapped with the drawn one, then
    * the rest of the shuffle from the next state. */
  lemma FisherYatesStep(t: seq<MachineLetter>, s: bv16, i: int)
    requires 0 < i < |t| < 0x1_0000
    ensures FisherYates(t, s, i) == FisherYates(Swap(t, i, RangeOf(s, i + 1)), Xorshift(s), i - 1)
  {
  }

  /** With no slot above 0 left, the shuffle changes nothing. */
  lemma FisherYatesDone(t: seq<MachineLetter>, s: bv16, i: int)
    requires i <= 0 && i < |t| < 0x1_0000
    ensures FisherYates(t, s, i) == (t, s)
  {
  }

  /** A swap keeps the same tiles. */
  lemma SwapPermutes(t: seq<MachineLetter>, i: int, j: int)
    requires 0 <= i < |t| && 0 <= j < |t|
    ensures multiset(Swap(t, i, j)) == multiset(t)
  {
  }

  /** The shuffle keeps the same tiles: it is a permutation of t. */
  lemma {:induction false} FisherYatesPermutes(t: seq<MachineLetter>, s: bv16, i: int)
    requires i < |t| < 0x1_0000
    ensures multiset(FisherYates(t, s, i).0) == multiset(t)
    decreases i
  {
    if i > 0 {
      var j := RangeOf(s, i + 1);
      SwapPermutes(t, i, j);
      FisherYatesPermutes(Swap(t, i, j), Xorshift(s), i - 1);
    }
  }

  /** The shuffle takes one draw per slot from the top down to 1: the
    * generator ends count - 1 steps on, whatever the tiles. */
  lemma {:induction false} FisherYatesState(t: seq<MachineLetter>, s: bv16, i: int)
    requires i < |t| < 0x1_0000
    ensures FisherYates(t, s, i).1 == Steps(s, if i > 0 then i else 0)
    decreases i
  {
    if i > 0 {
      FisherYatesState(Swap(t, i, RangeOf(s, i + 1)), Xorshift(s), i - 1);
    }
  }

  class Bag {
    const tiles: array<MachineLetter>
    var count: Byte

    /** The array has MAX_TILES_IN_BAG slots, count stays within it and every
      * slot, drawn or not, holds a letter or the blank. */
    ghost predicate Valid()
      reads this, tiles
    {
      tiles.Length == MAX_TILES_IN_BAG && count <= MAX_TILES_IN_BAG &&
      forall k :: 0 <= k < tiles.Length ==> IsLetter(tiles[k])
    }

    /** The tiles still in the bag. */
    ghost function Contents(): multiset<MachineLetter>
      requires Valid()
      reads this, tiles
    {
      multiset(tiles[..count])
    }

    constructor ()
      ensures Valid() && count == 0 && fresh(tiles)
    {
      tiles := new MachineLetter[MAX_TILES_IN_BAG](_ => BLANK_ML);
      count := 0;
    }

    /** bag_init: the standard distribution, 100 tiles with TILE_COUNTS[l]
      * copies of each letter l, laid out in ascending letter order. */
    method Init()
      requires Valid()
      modifies this, tiles
      ensures Valid() && count == MAX_TILES_IN_BAG
      ensures forall l :: 0 <= l < ALPHABET_SIZE ==> Contents()[l] == TILE_COUNTS[l]
      ensures forall i, j :: 0 <= i <= j < count ==> tiles[i] <= tiles[j]
    {
      TableFacts();
      FillFrom(TILE_COUNTS);
    }

    /** The two loops of bag_init over a table of counts: the copies of each
      * letter in turn, from slot 0 up. */
    method FillFrom(tc: seq<nat>)
      requires |tc| == ALPHABET_SIZE && SumTo(tc, ALPHABET_SIZE) <= MAX_TILES_IN_BAG
      requires tiles.Length == MAX_TILES_IN_BAG
      modifies this, tiles
      ensures count == SumTo(tc, ALPHABET_SIZE)
      ensures forall l :: 0 <= l < ALPHABET_SIZE ==> multiset(tiles[..count])[l] == tc[l]
      ensures forall i, j :: 0 <= i <= j < count ==> tiles[i] <= tiles[j]
      ensures forall i :: 0 <= i < count ==> IsLetter(tiles[i])
    {
      ghost var E := Expand(tc, ALPHABET_SIZE);
      FillLetters(tc, E);
      assert tiles[..count] == E;
      ExpandFacts(tc, E);
    }

    /** The outer loop of bag_init: the letters spelled out from slot 0 up. */
    method FillLetters(tc: seq<nat>, ghost E: seq<MachineLetter>)
      requires |tc| == ALPHABET_SIZE && E == Expand(tc, ALPHABET_SIZE) && |E| <= MAX_TILES_IN_BAG
      requires tiles.Length == MAX_TILES_IN_BAG
      modifies this, tiles
      ensures count == |E| && forall i :: 0 <= i < count ==> tiles[i] == E[i]
    {
      count := 0;
      var letter := 0;
      while letter < ALPHABET_SIZE
        invariant 0 <= letter <= ALPHABET_SIZE
        invariant count == SumTo(tc, letter) <= |E|
        invariant forall i :: 0 <= i < count ==> tiles[i] == E[i]
      {
        SumToBounds(tc, ALPHABET_SIZE, letter);
        PutCopies(tc, E, letter, tc[letter]);
        letter := letter + 1;
      }
    }

    /** The inner loop of bag_init: n copies of the letter on top of the bag. */
    method PutCopies(ghost tc: seq<nat>, ghost E: seq<MachineLetter>, letter: MachineLetter, n: nat)
      requires |tc| == ALPHABET_SIZE && E == Expand(tc, ALPHABET_SIZE) && letter < ALPHABET_SIZE
      requires n == tc[letter] && count == SumTo(tc, letter) && count + n <= |E|
      requires tiles.Length == MAX_TILES_IN_BAG && |E| <= MAX_TILES_IN_BAG
      modifies this, tiles
      ensures count == old(count) + n
      ensures forall i :: 0 <= i < count ==> tiles[i] == if i < old(count) then old(tiles[i]) else E[i]
    {
      var j := 0;
      while j < n
        invariant 0 <= j <= n && count == old(count) + j
        invariant forall i :: 0 <= i < count ==> tiles[i] == if i < old(count) then old(tiles[i]) else E[i]
      {
        ExpandAt(tc, ALPHABET_SIZE, letter, j);
        tiles[count] := letter;
        count := count + 1;
        j := j + 1;
      }
    }

    /** bag_shuffle: Fisher-Yates over the undrawn tiles, from the top down,
      * swapping slot i with a slot drawn from [0, i]. The undrawn tiles and
      * the generator end as FisherYates says, so the bag keeps the same
      * tiles, and the slots above count are not touched. */
    method Shuffle(rng: Rng)
      requires Valid()
      modifies tiles, rng
      ensures Valid()
      ensures (tiles[..count], rng.state) == FisherYates(old(tiles[..count]), old(rng.state), count - 1)
      ensures Contents() == old(Contents())
      ensures forall k :: count <= k < MAX_TILES_IN_BAG ==> tiles[k] == old(tiles[k])
    {
      ghost var goal := FisherYates(tiles[..count], rng.state, count - 1);
      FisherYatesPermutes(tiles[..count], rng.state, count - 1);
      ghost var T := tiles[..];
      var i := count - 1;
      while i > 0
        invariant -1 <= i < count
        invariant Valid()
        invariant FisherYates(tiles[..count], rng.state, i) == goal
        invariant forall k :: count <= k < MAX_TILES_IN_BAG ==> tiles[k] == T[k]
      {
        ghost var t, st := tiles[..count], rng.state;
        SwapDrawn(rng, i);
        FisherYatesStep(t, st, i);
        i := i - 1;
      }
      FisherYatesDone(tiles[..count], rng.state, i);
    }

    /** One round of bag_shuffle's loop: slot i swapped with slot
      * rng_range(i + 1). */
    method SwapDrawn(rng: Rng, i: int)
      requires Valid() && 0 < i < count
      modifies tiles, rng
      ensures Valid() && rng.state == Xorshift(old(rng.state))
      ensures tiles[..count] == Swap(old(tiles[..count]), i, RangeOf(old(rng.state), i + 1))
      ensures forall k :: count <= k < MAX_TILES_IN_BAG ==> tiles[k] == old(tiles[k])
    {
      var j := rng.Range(i + 1);
      ghost var prev := tiles[..count];
      var tmp := tiles[i];
      tiles[i] := tiles[j];
      tiles[j] := tmp;
      assert tiles[..count] == Swap(prev, i, j);
    }

    /** bag_draw: an empty bag yields the empty-square marker and stays
      * empty; otherwise the top tile is taken. */
    method Draw() returns (tile: MachineLetter)
      requires Valid()
      modifies this
      ensures Valid()
      ensures old(count) == 0 ==> tile == EMPTY_SQUARE && count == 0
      ensures old(count) > 0 ==> tile == tiles[old(count) - 1] && count == old(count) - 1
    {
      if count == 0 {
        return EMPTY_SQUARE;
      }
      count := count - 1;
      return tiles[count];
    }

    /** bag_refill_rack: draw until the rack holds RACK_SIZE tiles or the
      * bag is empty. The rack gains exactly the tiles taken off the top of
      * the bag, so rack and bag together keep the same tiles. */
    method RefillRack(rack: Rack)
      requires Valid() && rack.Valid() && rack.Consistent()
      modifies this, rack, rack.counts
      ensures Valid() && rack.Valid() && rack.Consistent()
      ensures count == old(count) - Drawn(old(rack.total), old(count))
      ensures rack.total == old(rack.total) + Drawn(old(rack.total), old(count))
      ensures rack.counts[..] == AddTiles(old(rack.counts[..]), tiles[count..old(count)])
      ensures forall l :: 0 <= l < ALPHABET_SIZE ==>
        rack.counts[l] + Contents()[l] == old(rack.counts[l]) + old(Contents())[l]
    {
      ghost var c0, t0 := count, rack.total;
      ghost var C0: seq<nat> := rack.counts[..];
      while rack.total < RACK_SIZE && count > 0
        invariant Valid() && rack.Valid() && rack.Consistent()
        invariant count <= c0 && rack.total == t0 + (c0 - count)
        invariant t0 < RACK_SIZE ==> rack.total <= RACK_SIZE
        invariant t0 >= RACK_SIZE ==> count == c0
        invariant rack.counts[..] == AddTiles(C0, tiles[count..c0])
        decreases count
      {
        DrawOne(rack, C0, c0);
      }
      DrawnConserves(C0, tiles[..c0], count);
      assert tiles[..c0][count..] == tiles[count..c0];
      assert tiles[..c0][..count] == tiles[..count];
    }

    /** One pass of bag_refill_rack's loop: the top tile goes onto the rack. */
    method DrawOne(rack: Rack, ghost C0: seq<nat>, ghost c0: nat)
      requires Valid() && rack.Valid() && rack.Consistent() && rack.total < RACK_SIZE
      requires 0 < count <= c0 <= MAX_TILES_IN_BAG && |C0| == ALPHABET_SIZE
      requires rack.counts[..] == AddTiles(C0, tiles[count..c0])
      modifies this, rack, rack.counts
      ensures Valid() && rack.Valid() && rack.Consistent()
      ensures count == old(count) - 1 && rack.total == old(rack.total) + 1
      ensures rack.counts[..] == AddTiles(C0, tiles[count..c0])
    {
      var tile := Draw();
      SumToBounds(rack.counts[..], ALPHABET_SIZE, tile);
      rack.AddTile(tile);
      assert tiles[count..c0][1..] == tiles[count + 1..c0];
    }

    /** bag_return_tiles: the tiles go on top of the bag, which is then
      * shuffled; the bag holds what it held plus the returned tiles, in the
      * order and with the generator state FisherYates gives. */
    method ReturnTiles(ts: seq<MachineLetter>, rng: Rng)
      requires Valid() && count + |ts| <= MAX_TILES_IN_BAG
      requires forall k :: 0 <= k < |ts| ==> IsLetter(ts[k])
      modifies this, tiles, rng
      ensures Valid() && count == old(count) + |ts|
      ensures Contents() == old(Contents()) + multiset(ts)
      ensures (tiles[..count], rng.state) == FisherYates(old(tiles[..count]) + ts, old(rng.state), count - 1)
    {
      PushTiles(ts);
      Shuffle(rng);
    }

    /** The loop of bag_return_tiles: each tile goes into slot count, which
      * then moves up. */
    method PushTiles(ts: seq<MachineLetter>)
      requires Valid() && count + |ts| <= MAX_TILES_IN_BAG
      requires forall k :: 0 <= k < |ts| ==> IsLetter(ts[k])
      modifies this, tiles
      ensures Valid() && count == old(count) + |ts|
      ensures tiles[..count] == old(tiles[..count]) + ts
    {
      ghost var c0 := count;
      var i := 0;
      while i < |ts|
        invariant 0 <= i <= |ts| && count == c0 + i
        invariant Valid()
        invariant forall k :: 0 <= k < c0 ==> tiles[k] == old(tiles[k])
        invariant forall k :: 0 <= k < i ==> tiles[c0 + k] == ts[k]
      {
        tiles[count] := ts[i];
        count := count + 1;
        i := i + 1;
      }
      assert tiles[..count] == old(tiles[..count]) + ts;
    }
  }

  /** How many tiles bag_refill_rack draws: up to the rack size, at most
    * what the bag holds. */
  function Drawn(rackTotal: int, bagCount: int): (d: int)
    requires 0 <= bagCount
    ensures 0 <= d <= bagCount
    ensures rackTotal >= RACK_SIZE ==> d == 0
    ensures rackTotal < RACK_SIZE ==> rackTotal + d == RACK_SIZE || d == bagCount
  {
    if rackTotal >= RACK_SIZE then 0
    else if RACK_SIZE - rackTotal < bagCount then RACK_SIZE - rackTotal
    else bagCount
  }

  /** uint8_t increment and decrement: 255 + 1 wraps to 0 and 0 - 1 to 255. */
  function Inc8(x: Byte): (r: Byte)
    ensures r == (x + 1) % 256
  {
    if x == 255 then 0 else x + 1
  }

  function Dec8(x: Byte): (r: Byte)
    ensures r == (x + 255) % 256 && Inc8(r) == x
  {
    if x == 0 then 255 else x - 1
  }

  /** The tiles a table of counts stands for. */
  function RackTiles(counts: seq<nat>): multiset<MachineLetter>
    requires |counts| == ALPHABET_SIZE
  {
    multiset(Expand(counts, ALPHABET_SIZE))
  }

  /** A rack holds each letter as often as its count says, and as many
    * tiles as the counts add up to. */
  lemma RackTilesMeaning(counts: seq<nat>, l: MachineLetter)
    requires |counts| == ALPHABET_SIZE
    ensures RackTiles(counts)[l] == if l < ALPHABET_SIZE then counts[l] else 0
    ensures |RackTiles(counts)| == SumTo(counts, ALPHABET_SIZE)
  {
    ExpandCount(counts, ALPHABET_SIZE, l);
  }

  /** One more copy of a letter in the counts is one more tile of it on the rack. */
  lemma RackTilesAdd(counts: seq<nat>, t: MachineLetter)
    requires |counts| == ALPHABET_SIZE && IsLetter(t)
    ensures RackTiles(counts[t := counts[t] + 1]) == RackTiles(counts) + multiset{t}
  {
    var more := counts[t := counts[t] + 1];
    forall x: MachineLetter
      ensures RackTiles(more)[x] == (RackTiles(counts) + multiset{t})[x]
    {
      RackTilesMeaning(more, x);
      RackTilesMeaning(counts, x);
    }
  }

  /** A letter is on the rack exactly when its count is positive. */
  lemma RackTilesHas(counts: seq<nat>, t: MachineLetter)
    requires |counts| == ALPHABET_SIZE && IsLetter(t)
    ensures t in RackTiles(counts) <==> counts[t] > 0
  {
    ExpandCount(counts, ALPHABET_SIZE, t);
  }

  /** One copy fewer in the counts is one tile of it fewer on the rack. */
  lemma RackTilesRemove(counts: seq<nat>, t: MachineLetter)
    requires |counts| == ALPHABET_SIZE && IsLetter(t) && counts[t] > 0
    ensures RackTiles(counts[t := counts[t] - 1]) == RackTiles(counts) - multiset{t}
  {
    var after := counts[t := counts[t] - 1];
    RackTilesAdd(after, t);
    assert after[t := after[t] + 1] == counts;
  }

  /** The counts after adding the tiles, the last one first. */
  function AddTiles(counts: seq<nat>, ts: seq<MachineLetter>): (r: seq<nat>)
    requires forall i :: 0 <= i < |ts| ==> ts[i] < |counts|
    ensures |r| == |counts|
  {
    if ts == [] then counts
    else
      var rest := AddTiles(counts, ts[1..]);
      rest[ts[0] := rest[ts[0]] + 1]
  }

  /** Adding tiles raises each letter's count by its number of copies among them. */
  lemma {:induction false} AddTilesCount(counts: seq<nat>, ts: seq<MachineLetter>, l: int)
    requires forall i :: 0 <= i < |ts| ==> ts[i] < |counts|
    requires 0 <= l < |counts|
    ensures AddTiles(counts, ts)[l] == counts[l] + multiset(ts)[l]
  {
    if ts != [] {
      AddTilesCount(counts, ts[1..], l);
      assert ts == [ts[0]] + ts[1..];
    }
  }

  /** Moving the top tiles of a bag onto a rack keeps, letter by letter,
    * the number of tiles in the two together. */
  lemma DrawnConserves(counts: seq<nat>, bag: seq<MachineLetter>, n: nat)
    requires |counts| == ALPHABET_SIZE && n <= |bag|
    requires forall i :: n <= i < |bag| ==> bag[i] < ALPHABET_SIZE
    ensures forall l :: 0 <= l < ALPHABET_SIZE ==>
      AddTiles(counts, bag[n..])[l] + multiset(bag[..n])[l] == counts[l] + multiset(bag)[l]
  {
    assert bag == bag[..n] + bag[n..];
    forall l | 0 <= l < ALPHABET_SIZE
      ensures AddTiles(counts, bag[n..])[l] + multiset(bag[..n])[l] == counts[l] + multiset(bag)[l]
    {
      AddTilesCount(counts, bag[n..], l);
    }
  }

  /** Adding tiles raises the sum of the counts by their number. */
  lemma {:induction false} AddTilesSum(counts: seq<nat>, ts: seq<MachineLetter>)
    requires |counts| == ALPHABET_SIZE && forall i :: 0 <= i < |ts| ==> ts[i] < |counts|
    ensures SumTo(AddTiles(counts, ts), ALPHABET_SIZE) == SumTo(counts, ALPHABET_SIZE) + |ts|
  {
    if ts != [] {
      var rest := AddTiles(counts, ts[1..]);
      AddTilesSum(counts, ts[1..]);
      SumToUpdate(rest, ALPHABET_SIZE, ts[0], rest[ts[0]] + 1);
    }
  }
}
