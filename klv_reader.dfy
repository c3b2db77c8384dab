// tests/gxtest/klv.cpp: the test suite's own KLV16 reader, a port of the
// ROM's leave lookup onto std::vector storage. Racks count tiles in bytes;
// the loader reads the file as a stream and gives up on a short read or an
// implausible count.
module KlvReader {
  import opened Defs
  import opened Wrappers
  import opened KwgNode
  import opened Equity
  import opened BoardTables
  import Game
  import Rom = Klv

  /** The largest node count and leave count Load accepts. */
  const MAX_FIELD: int := 10_000_000

  // ---------------------------------------------------------------------
  // Racks

  /** The letter a rack character stands for: '?' the blank, a letter of
    * either case its machine letter, anything else none. */
  function Code(c: char): (r: Option<MachineLetter>)
    ensures r.Some? ==> r.value < ALPHABET_SIZE
  {
    if c == '?' then Some(0)
    else if 'A' <= c <= 'Z' then Some(c as int - 'A' as int + 1)
    else if 'a' <= c <= 'z' then Some(c as int - 'a' as int + 1)
    else None
  }

  /** Every count zero. */
  function Empty(): (r: seq<Byte>)
    ensures |r| == ALPHABET_SIZE
  {
    seq(ALPHABET_SIZE, _ => 0)
  }

  /** Rack::AddTile on the counts: the letter's byte goes up by one; a
    * letter past the alphabet is ignored. */
  function Added(counts: seq<Byte>, ml: Byte): (r: seq<Byte>)
    requires |counts| == ALPHABET_SIZE
    ensures |r| == ALPHABET_SIZE
  {
    if ml < ALPHABET_SIZE then counts[ml := Game.Inc8(counts[ml])] else counts
  }

  /** Rack::RemoveTile on the counts: the letter's count goes down by one
    * when the letter is in the alphabet and on the rack. */
  function Removed(counts: seq<Byte>, ml: Byte): (r: seq<Byte>)
    requires |counts| == ALPHABET_SIZE
    ensures |r| == ALPHABET_SIZE
  {
    if ml < ALPHABET_SIZE && counts[ml] > 0 then counts[ml := counts[ml] - 1] else counts
  }

  /** Adding a tile and removing it again restores the counts, unless the
    * count wrapped from 255 to 0 on the way. */
  lemma AddThenRemove(counts: seq<Byte>, ml: Byte)
    requires |counts| == ALPHABET_SIZE
    requires ml < ALPHABET_SIZE ==> counts[ml] < 255
    ensures Removed(Added(counts, ml), ml) == counts
  {
  }

  /** Removing a tile that is there and adding it back restores the counts. */
  lemma RemoveThenAdd(counts: seq<Byte>, ml: Byte)
    requires |counts| == ALPHABET_SIZE && ml < ALPHABET_SIZE && counts[ml] > 0
    ensures Added(Removed(counts, ml), ml) == counts
  {
  }

  /** The counts Rack::FromString reaches from start over the characters
    * of s, one AddTile per character that names a tile. */
  function TallyOnto(start: seq<Byte>, s: string): (r: seq<Byte>)
    requires |start| == ALPHABET_SIZE
    ensures |r| == ALPHABET_SIZE
  {
    if s == [] then start
    else
      var prior := TallyOnto(start, s[..|s| - 1]);
      match Code(s[|s| - 1])
      case None => prior
      case Some(ml) => Added(prior, ml)
  }

  /** How many characters of s name a tile. */
  function Recognised(s: string): (n: nat)
    ensures n <= |s|
  {
    if s == [] then 0 else Recognised(s[..|s| - 1]) + (if Code(s[|s| - 1]).Some? then 1 else 0)
  }

  /** k copies of one character. */
  function Copies(c: char, k: nat): (r: string)
    ensures |r| == k
  {
    if k == 0 then [] else Copies(c, k - 1) + [c]
  }

  /** What Rack::ToString writes for the letters below n: '?' per blank,
    * then each letter's capital as often as its count, in letter order. */
  function Spell(counts: seq<Byte>, n: nat): string
    requires |counts| == ALPHABET_SIZE && n <= ALPHABET_SIZE
  {
    if n == 0 then [] else Spell(counts, n - 1) + Copies(Game.LetterChar(n - 1), counts[n - 1])
  }

  /** The character ToString writes for a letter reads back as that letter. */
  lemma CodeOfLetter(l: MachineLetter)
    requires l < ALPHABET_SIZE
    ensures Code(Game.LetterChar(l)) == Some(l)
  {
  }

  lemma {:induction false} TallyAppend(start: seq<Byte>, s: string, t: string)
    requires |start| == ALPHABET_SIZE
    ensures TallyOnto(start, s + t) == TallyOnto(TallyOnto(start, s), t)
    ensures Recognised(s + t) == Recognised(s) + Recognised(t)
    decreases |t|
  {
    if t != [] {
      var u := s + t;
      assert u[..|u| - 1] == s + t[..|t| - 1];
      assert u[|u| - 1] == t[|t| - 1];
      TallyAppend(start, s, t[..|t| - 1]);
    } else {
      assert s + t == s;
    }
  }

  /** Reading k copies of a letter's character adds k to its count. */
  lemma {:induction false} TallyCopies(start: seq<Byte>, l: MachineLetter, k: nat)
    requires |start| == ALPHABET_SIZE && l < ALPHABET_SIZE && start[l] + k < 256
    ensures TallyOnto(start, Copies(Game.LetterChar(l), k)) == start[l := start[l] + k]
    ensures Recognised(Copies(Game.LetterChar(l), k)) == k
  {
    if k > 0 {
      var c := Copies(Game.LetterChar(l), k);
      assert c[..k - 1] == Copies(Game.LetterChar(l), k - 1);
      TallyCopies(start, l, k - 1);
      CodeOfLetter(l);
    }
  }

  /** The first n counts, zeros after. */
  function Upto(counts: seq<Byte>, n: nat): (r: seq<Byte>)
    requires |counts| == ALPHABET_SIZE
    ensures |r| == ALPHABET_SIZE
  {
    seq(ALPHABET_SIZE, i requires 0 <= i < ALPHABET_SIZE => if i < n then counts[i] else 0)
  }

  /** Letter n - 1's copies follow the letters below it: reading them
    * continues from what the letters below left. */
  lemma SpellStep(counts: seq<Byte>, n: nat, x: seq<Byte>)
    requires |counts| == ALPHABET_SIZE && 0 < n <= ALPHABET_SIZE && |x| == ALPHABET_SIZE
    requires TallyOnto(Empty(), Spell(counts, n - 1)) == x
    ensures TallyOnto(Empty(), Spell(counts, n)) == TallyOnto(x, Copies(Game.LetterChar(n - 1), counts[n - 1]))
    ensures Recognised(Spell(counts, n)) == Recognised(Spell(counts, n - 1)) + Recognised(Copies(Game.LetterChar(n - 1), counts[n - 1]))
  {
    var a := Spell(counts, n - 1);
    var b := Copies(Game.LetterChar(n - 1), counts[n - 1]);
    assert Spell(counts, n) == a + b;
    TallyAppend(Empty(), a, b);
  }

  lemma UptoStep(counts: seq<Byte>, n: nat)
    requires |counts| == ALPHABET_SIZE && 0 < n <= ALPHABET_SIZE
    ensures Upto(counts, n - 1)[n - 1] == 0
    ensures Upto(counts, n - 1)[n - 1 := counts[n - 1]] == Upto(counts, n)
  {
  }

  /** Reading what ToString writes for the letters below n gives their counts back. */
  lemma {:induction false} TallySpell(counts: seq<Byte>, n: nat)
    requires |counts| == ALPHABET_SIZE && n <= ALPHABET_SIZE
    ensures TallyOnto(Empty(), Spell(counts, n)) == Upto(counts, n)
    ensures Recognised(Spell(counts, n)) == SumTo(counts, n)
  {
    if n == 0 {
      assert Upto(counts, 0) == Empty();
    } else {
      TallySpell(counts, n - 1);
      SpellStep(counts, n, Upto(counts, n - 1));
      UptoStep(counts, n);
      TallyCopies(Upto(counts, n - 1), n - 1, counts[n - 1]);
    }
  }

  /** FromString(ToString()) is the same rack: the counts come back, and
    * the total is their sum as a byte. */
  lemma StringRoundTrip(counts: seq<Byte>)
    requires |counts| == ALPHABET_SIZE
    ensures TallyOnto(Empty(), Spell(counts, ALPHABET_SIZE)) == counts
    ensures Recognised(Spell(counts, ALPHABET_SIZE)) % 256 == SumTo(counts, ALPHABET_SIZE) % 256
  {
    TallySpell(counts, ALPHABET_SIZE);
    assert Upto(counts, ALPHABET_SIZE) == counts;
  }

  /** Counting in a byte is counting modulo 256. */
  lemma ByteCount(x: nat)
    ensures Game.Inc8(x % 256) == (x + 1) % 256
  {
  }

  /** One more character of s: FromString's next AddTile, or nothing. */
  lemma TallyNext(s: string, i: nat)
    requires i < |s|
    ensures TallyOnto(Empty(), s[..i + 1]) ==
      if Code(s[i]).Some? then Added(TallyOnto(Empty(), s[..i]), Code(s[i]).value) else TallyOnto(Empty(), s[..i])
    ensures Recognised(s[..i + 1]) == Recognised(s[..i]) + if Code(s[i]).Some? then 1 else 0
  {
    assert s[..i + 1][..i] == s[..i];
  }

  /** Up to 255 tile characters nothing wraps: the counts FromString
    * builds add up to the number of tile characters read. */
  lemma {:induction false} TallySum(s: string)
    requires Recognised(s) < 256
    ensures SumTo(TallyOnto(Empty(), s), ALPHABET_SIZE) == Recognised(s)
  {
    if s == [] {
      Game.SumToZero(Empty(), ALPHABET_SIZE);
    } else {
      var prior := TallyOnto(Empty(), s[..|s| - 1]);
      TallySum(s[..|s| - 1]);
      match Code(s[|s| - 1])
      case None =>
      case Some(ml) =>
        Game.SumToBounds(prior, ALPHABET_SIZE, ml);
        Game.SumToUpdate(prior, ALPHABET_SIZE, ml, prior[ml] + 1);
    }
  }

  /** gxtest::Rack: a byte count per letter and a byte total. */
  class Rack {
    const counts: array<Byte>
    var total: Byte

    ghost predicate Valid()
      reads this
    {
      counts.Length == ALPHABET_SIZE
    }

    /** The total agrees with the counts. */
    ghost predicate Consistent()
      requires Valid()
      reads this, counts
    {
      total == SumTo(counts[..], ALPHABET_SIZE)
    }

    /** A default Rack: every count and the total zero. */
    constructor ()
      ensures Valid() && fresh(counts) && counts[..] == Empty() && total == 0
    {
      counts := new Byte[ALPHABET_SIZE](_ => 0);
      total := 0;
    }

    /** Rack::AddTile: a letter of the alphabet goes up by one in its count
      * and in the total, each a byte; any other value changes nothing. */
    method AddTile(ml: Byte)
      requires Valid()
      modifies this, counts
      ensures counts[..] == Added(old(counts[..]), ml)
      ensures total == if ml < ALPHABET_SIZE then Game.Inc8(old(total)) else old(total)
      ensures old(Consistent()) && old(total) < 255 ==> Consistent()
    {
      ghost var before := counts[..];
      if ml < ALPHABET_SIZE {
        if Consistent() && total < 255 {
          Game.SumToBounds(before, ALPHABET_SIZE, ml);
          Game.SumToUpdate(before, ALPHABET_SIZE, ml, before[ml] + 1);
        }
        counts[ml] := Game.Inc8(counts[ml]);
        total := Game.Inc8(total);
        assert counts[..] == Added(before, ml);
      }
    }

    /** Rack::RemoveTile: false and no change unless the letter is in the
      * alphabet and on the rack; otherwise its count and the total each
      * go down by one. */
    method RemoveTile(ml: Byte) returns (removed: bool)
      requires Valid()
      modifies this, counts
      ensures removed <==> ml < ALPHABET_SIZE && old(counts[..])[ml] > 0
      ensures counts[..] == Removed(old(counts[..]), ml)
      ensures total == if removed then Game.Dec8(old(total)) else old(total)
      ensures old(Consistent()) ==> Consistent()
    {
      ghost var before := counts[..];
      if ml < ALPHABET_SIZE && counts[ml] > 0 {
        if Consistent() {
          Game.SumToBounds(before, ALPHABET_SIZE, ml);
          Game.SumToUpdate(before, ALPHABET_SIZE, ml, before[ml] - 1);
        }
        counts[ml] := counts[ml] - 1;
        total := Game.Dec8(total);
        assert counts[..] == Removed(before, ml);
        return true;
      }
      return false;
    }

    /** Rack::FromString: one AddTile per '?' or letter, other characters
      * skipped. */
    static method FromString(s: string) returns (rack: Rack)
      ensures fresh(rack) && fresh(rack.counts) && rack.Valid()
      ensures rack.counts[..] == TallyOnto(Empty(), s)
      ensures rack.total == Recognised(s) % 256
    {
      rack := new Rack();
      var i := 0;
      while i < |s|
        invariant 0 <= i <= |s| && fresh(rack) && fresh(rack.counts) && rack.Valid()
        invariant rack.counts[..] == TallyOnto(Empty(), s[..i])
        invariant rack.total == Recognised(s[..i]) % 256
      {
        var c := s[i];
        TallyNext(s, i);
        ByteCount(Recognised(s[..i]));
        if c == '?' {
          rack.AddTile(0);
        } else if 'A' <= c <= 'Z' {
          rack.AddTile(c as int - 'A' as int + 1);
        } else if 'a' <= c <= 'z' {
          rack.AddTile(c as int - 'a' as int + 1);
        }
        i := i + 1;
      }
      assert s[..i] == s;
    }

    /** Rack::ToString: the rack's tiles in letter order, '?' for a blank. */
    method ToString() returns (s: string)
      requires Valid()
      ensures s == Spell(counts[..], ALPHABET_SIZE)
    {
      ghost var cs := counts[..];
      s := [];
      var ml := 0;
      while ml < ALPHABET_SIZE
        invariant 0 <= ml <= ALPHABET_SIZE && s == Spell(cs, ml)
      {
        var j := 0;
        while j < counts[ml]
          invariant 0 <= j <= counts[ml] && s == Spell(cs, ml) + Copies(Game.LetterChar(ml), j)
        {
          if ml == 0 {
            s := s + "?";
          } else {
            s := s + [('A' as int + ml - 1) as char];
          }
          j := j + 1;
        }
        ml := ml + 1;
      }
    }
  }

  // ---------------------------------------------------------------------
  // Loading

  /** The nodes read after the node count: n little-endian uint32s from byte 4. */
  function NodesOf(data: seq<Byte>, n: nat): (r: seq<Node>)
    requires 4 + 4 * n <= |data|
    ensures |r| == n
  {
    seq(n, i requires 0 <= i < n => Rom.ReadLe32(data, 4 + 4 * i))
  }

  /** The leave values: m little-endian int16s from byte at. */
  function LeavesOf(data: seq<Byte>, at: nat, m: nat): (r: seq<int>)
    requires at + 2 * m <= |data|
    ensures |r| == m
  {
    seq(m, i requires 0 <= i < m => Rom.ReadLe16(data, at + 2 * i))
  }

  /** What KLV::Load reads from a file's bytes, or None where it returns
    * false: a node count of 0 or above ten million, a leave count of 0
    * or above ten million, or a file too short for what its counts
    * announce. Bytes after the last leave value are not read. */
  function Parse(data: seq<Byte>): Option<(seq<Node>, seq<int>)>
  {
    if |data| < 4 then None
    else
      var n := Rom.ReadLe32(data, 0);
      if n == 0 || n > MAX_FIELD then None
      else if |data| < 4 + 4 * n then None
      else if |data| < 8 + 4 * n then None
      else
        var m := Rom.ReadLe32(data, 4 + 4 * n);
        if m == 0 || m > MAX_FIELD then None
        else if |data| < 8 + 4 * n + 2 * m then None
        else Some((NodesOf(data, n), LeavesOf(data, 8 + 4 * n, m)))
  }

  /** A KLV16 image of nodes and leave values within the limits loads back
    * as those nodes, and its leave values as the ones the ROM's
    * klv_get_indexed_leave reads from the same image. */
  lemma ParseImage(nodes: seq<Node>, numLeaves: nat, leaveBytes: seq<Byte>)
    requires 0 < |nodes| <= MAX_FIELD && 0 < numLeaves <= MAX_FIELD && 2 * numLeaves <= |leaveBytes|
    ensures var r := Parse(Rom.Image(nodes, numLeaves, leaveBytes));
      && r.Some? && r.value.0 == nodes && |r.value.1| == numLeaves
      && forall i :: 0 <= i < numLeaves ==> r.value.1[i] == Rom.IndexedLeave(leaveBytes, i)
  {
    var b := Rom.Image(nodes, numLeaves, leaveBytes);
    var n := |nodes|;
    Rom.ImageFields(nodes, numLeaves, leaveBytes);
    var r := Parse(b);
    assert r.value.0 == nodes;
    forall i | 0 <= i < numLeaves
      ensures r.value.1[i] == Rom.IndexedLeave(leaveBytes, i)
    {
      var at := 8 + 4 * n;
      assert b[at + 2 * i] == leaveBytes[2 * i] && b[at + 2 * i + 1] == leaveBytes[2 * i + 1];
    }
  }

  /** Bytes appended to a file that loads change nothing that is read. */
  lemma TrailingBytesIgnored(data: seq<Byte>, extra: seq<Byte>)
    requires Parse(data).Some?
    ensures Parse(data + extra) == Parse(data)
  {
    var d := data + extra;
    var n := Rom.ReadLe32(data, 0);
    assert d[..|data|] == data;
    assert Rom.ReadLe32(d, 0) == n;
    assert Rom.ReadLe32(d, 4 + 4 * n) == Rom.ReadLe32(data, 4 + 4 * n);
    var m := Rom.ReadLe32(data, 4 + 4 * n);
    assert NodesOf(d, n) == NodesOf(data, n);
    assert LeavesOf(d, 8 + 4 * n, m) == LeavesOf(data, 8 + 4 * n, m);
  }

  /** std::vector::resize(n, 0): the first n values kept, zeros after. */
  function Resized(s: seq<nat>, n: nat): (r: seq<nat>)
    ensures |r| == n && forall i :: 0 <= i < n ==> r[i] == if i < |s| then s[i] else 0
  {
    if n <= |s| then s[..n] else s + seq(n - |s|, _ => 0)
  }

  // ---------------------------------------------------------------------
  // Word indices

  /** increment_to_letter's scan from node k of a run, with the word index
    * at acc: the node of the letter and the index there, or 0 and the
    * unfound index when the run ends first. The scan stops at the end of
    * the vector before reading the next count. */
  function ScanFrom(kwg: seq<Node>, wc: seq<nat>, k: nat, acc: int, ml: MachineLetter): (r: (nat, int))
    requires |wc| == |kwg| && k < |kwg|
    decreases |kwg| - k
  {
    if Tile(kwg[k]) == ml then (k, acc)
    else if IsEnd(kwg[k]) then (0, Rom.UNFOUND_INDEX)
    else if k + 1 >= |kwg| then (0, Rom.UNFOUND_INDEX)
    else ScanFrom(kwg, wc, k + 1, acc + wc[k] - wc[k + 1], ml)
  }

  /** KLV::IncrementToLetter: node 0 or a node past the end gives 0 and the
    * unfound index, any other node the scan of its run. */
  function Increment(kwg: seq<Node>, wc: seq<nat>, n: nat, idx: int, ml: MachineLetter): (r: (nat, int))
    requires |wc| == |kwg|
  {
    if n == 0 || n >= |kwg| then (0, Rom.UNFOUND_INDEX) else ScanFrom(kwg, wc, n, idx, ml)
  }

  /** On a lexicon whose last node ends a run, the scan from k finds what
    * the ROM's Find finds, with the word index moved past the counts of
    * the siblings before it. */
  lemma {:induction false} ScanFinds(kwg: seq<Node>, wc: seq<nat>, n: nat, k: nat, idx: int, ml: MachineLetter)
    requires |wc| == |kwg| && ScansEnd(kwg) && n <= k < |kwg|
    requires forall j :: n <= j < k ==> !IsEnd(kwg[j]) && Tile(kwg[j]) != ml
    ensures Find(kwg, k, ml) == Find(kwg, n, ml)
    ensures var r := ScanFrom(kwg, wc, k, idx + wc[n] - wc[k], ml);
      match Find(kwg, n, ml)
      case None => r == (0, Rom.UNFOUND_INDEX)
      case Some(f) => r == (f, idx + wc[n] - wc[f])
    decreases |kwg| - k
  {
    FindFrom(kwg, n, k, ml);
    if Tile(kwg[k]) != ml && !IsEnd(kwg[k]) {
      assert k + 1 < |kwg|;
      ScanFinds(kwg, wc, n, k + 1, idx, ml);
    }
  }

  /** A scan that passed nodes n..k-1 without a match or an end finds what a scan from n finds. */
  lemma {:induction false} FindFrom(kwg: seq<Node>, n: nat, k: nat, ml: MachineLetter)
    requires ScansEnd(kwg) && n <= k < |kwg|
    requires forall j :: n <= j < k ==> !IsEnd(kwg[j]) && Tile(kwg[j]) != ml
    ensures Find(kwg, k, ml) == Find(kwg, n, ml)
    decreases k - n
  {
    if n < k {
      FindFrom(kwg, n + 1, k, ml);
    }
  }

  /** On a lexicon whose last node ends a run, the test reader's
    * IncrementToLetter returns what the ROM's increment_to_letter does. */
  lemma IncrementMatchesRom(kwg: seq<Node>, wc: seq<nat>, n: nat, idx: int, ml: MachineLetter)
    requires |wc| == |kwg| && ScansEnd(kwg) && 0 < n < |kwg|
    ensures Find(kwg, n, ml).None? ==> Increment(kwg, wc, n, idx, ml) == (0, Rom.UNFOUND_INDEX)
    ensures Find(kwg, n, ml).Some? ==>
      Increment(kwg, wc, n, idx, ml) == (Find(kwg, n, ml).value, idx + wc[n] - wc[Find(kwg, n, ml).value])
  {
    ScanFinds(kwg, wc, n, n, idx, ml);
  }

  /** The word_counts_ indices the loop of klv.cpp:166-188 reads, as
    * written, when it scans from node k: each node it passes costs a read
    * of its own count and of the next node's, and the bounds test comes
    * only after those reads. */
  function SkipReads(kwg: seq<Node>, k: nat, ml: MachineLetter): seq<nat>
    requires k < |kwg|
    decreases |kwg| - k
  {
    if Tile(kwg[k]) == ml || IsEnd(kwg[k]) then []
    else [k, k + 1] + (if k + 1 >= |kwg| then [] else SkipReads(kwg, k + 1, ml))
  }

  /** On a lexicon whose last node ends a run, every count the scan reads exists. */
  lemma {:induction false} SkipReadsInBounds(kwg: seq<Node>, k: nat, ml: MachineLetter)
    requires ScansEnd(kwg) && k < |kwg|
    ensures forall i :: 0 <= i < |SkipReads(kwg, k, ml)| ==> SkipReads(kwg, k, ml)[i] < |kwg|
    decreases |kwg| - k
  {
    if !(Tile(kwg[k]) == ml || IsEnd(kwg[k])) {
      SkipReadsInBounds(kwg, k + 1, ml);
    }
  }

  /** A loaded file need not end its last run: with nodes [arc to 1, tile 1
    * with no end flag], looking for letter 2 from node 1 reads
    * word_counts_[2] of a two-element vector. */
  lemma OverReadExample()
    ensures var kwg: seq<Node> := [1, 0x0100_0000];
      SkipReads(kwg, 1, 2) == [1, 2] && SkipReads(kwg, 1, 2)[1] == |kwg|
  {
    var kwg: seq<Node> := [1, 0x0100_0000];
    assert Tile(kwg[1]) == 1 && !IsEnd(kwg[1]);
  }

  /** The counts read by the scan with the bounds test moved before the
    * reads, as ScanFrom does: a node's own count and the next one's only
    * when the next node exists. */
  function CheckedReads(kwg: seq<Node>, k: nat, ml: MachineLetter): seq<nat>
    requires k < |kwg|
    decreases |kwg| - k
  {
    if Tile(kwg[k]) == ml || IsEnd(kwg[k]) || k + 1 >= |kwg| then []
    else [k, k + 1] + CheckedReads(kwg, k + 1, ml)
  }

  /** With the test first, every count read exists, whether or not the last node ends a run. */
  lemma {:induction false} CheckedReadsInBounds(kwg: seq<Node>, k: nat, ml: MachineLetter)
    requires k < |kwg|
    ensures forall i :: 0 <= i < |CheckedReads(kwg, k, ml)| ==> k <= CheckedReads(kwg, k, ml)[i] < |kwg|
    decreases |kwg| - k
  {
    if !(Tile(kwg[k]) == ml || IsEnd(kwg[k]) || k + 1 >= |kwg|) {
      CheckedReadsInBounds(kwg, k + 1, ml);
    }
  }

  /** The walk has consumed pos letters of the rack's ascending spelling:
    * all letters below ml, and all but mlCount copies of ml; past the
    * alphabet, every letter. */
  predicate Placed(cs: seq<nat>, ml: int, mlCount: int, pos: nat)
    requires |cs| == ALPHABET_SIZE
  {
    if 0 <= ml < ALPHABET_SIZE then 0 <= mlCount <= cs[ml] && pos == SumTo(cs, ml) + cs[ml] - mlCount
    else ml == ALPHABET_SIZE && pos == SumTo(cs, ALPHABET_SIZE)
  }

  /** Where GetWordIndex's walk stands: at a node of the lexicon, with pos
    * letters of the rack's ascending spelling behind it and `remaining`
    * ahead, the current letter ml having mlCount copies left. */
  ghost predicate WalkAt(kwg: seq<Node>, wc: seq<nat>, cs: seq<nat>, node: nat, ml: int, mlCount: int, pos: nat, remaining: nat)
    requires |cs| == ALPHABET_SIZE
  {
    && node < |kwg| && pos + remaining == |Game.Expand(cs, ALPHABET_SIZE)| && remaining > 0
    && 0 <= ml < ALPHABET_SIZE && 0 < mlCount && Placed(cs, ml, mlCount, pos)
  }

  /** One step of GetWordIndex's walk agrees with the ROM's: the letter the
    * walk looks for is the next one of the rack's ascending spelling, and
    * what IncrementToLetter returns for it decides the rest of the index. */
  lemma WalkStep(kwg: seq<Node>, wc: seq<nat>, cs: seq<nat>, node: nat, idx: int, pos: nat, ml: int, mlCount: int, found: nat, next: int)
    requires WellFormed(kwg) && |wc| == |kwg| && |cs| == ALPHABET_SIZE
    requires 0 < node < |kwg| && 0 <= ml < ALPHABET_SIZE && 0 < mlCount && Placed(cs, ml, mlCount, pos)
    requires pos < |Game.Expand(cs, ALPHABET_SIZE)|
    requires (found, next) == Increment(kwg, wc, node, idx, ml)
    ensures var E := Game.Expand(cs, ALPHABET_SIZE);
      && (found == 0 ==> Rom.IndexFrom(kwg, wc, node, idx, E[pos..]) == Rom.UNFOUND_INDEX)
      && (found != 0 && pos + 1 == |E| ==> Rom.IndexFrom(kwg, wc, node, idx, E[pos..]) == next)
      && (found != 0 && pos + 1 < |E| ==>
            found < |kwg| &&
            Rom.IndexFrom(kwg, wc, node, idx, E[pos..]) == Rom.IndexFrom(kwg, wc, ArcIndex(kwg[found]), next + 1, E[pos + 1..]))
  {
    var E := Game.Expand(cs, ALPHABET_SIZE);
    Game.ExpandAt(cs, ALPHABET_SIZE, ml, cs[ml] - mlCount);
    assert E[pos..][0] == ml;
    IncrementMatchesRom(kwg, wc, node, idx, ml);
    Rom.IndexStep(kwg, wc, node, idx, E[pos..], found, next);
    assert E[pos..][1..] == E[pos + 1..];
  }

  /** KLV::GetLeaveValue for a rack with these counts: 0 for an empty rack,
    * for an unfound index, or for an index outside the leave vector. */
  function LeaveFor(kwg: seq<Node>, wc: seq<nat>, leaves: seq<int>, counts: seq<nat>): int
    requires WellFormed(kwg) && |wc| == |kwg| && |counts| == ALPHABET_SIZE
  {
    var index := Rom.WordIndexOf(kwg, wc, counts);
    if SumTo(counts, ALPHABET_SIZE) == 0 || index == Rom.UNFOUND_INDEX || index < 0 || index >= |leaves| then 0
    else leaves[index]
  }

  /** The test reader and the ROM agree on a loaded image: for a rack whose
    * index lies inside the leave table, KLV::GetLeaveValue over what Load
    * read equals klv_get_leave_value over the image. */
  lemma LeaveMatchesRom(nodes: seq<Node>, wc: seq<nat>, numLeaves: nat, leaveBytes: seq<Byte>, counts: seq<nat>)
    requires 0 < |nodes| <= MAX_FIELD && 0 < numLeaves <= MAX_FIELD && 2 * numLeaves <= |leaveBytes|
    requires WellFormed(nodes) && |wc| == |nodes| && |counts| == ALPHABET_SIZE
    requires Rom.Fixpoint(nodes, wc)
    requires var i := Rom.WordIndexOf(nodes, wc, counts); i == Rom.UNFOUND_INDEX || i < numLeaves
    ensures Parse(Rom.Image(nodes, numLeaves, leaveBytes)).Some?
    ensures Rom.LeaveInRange(leaveBytes, Rom.WordIndexOf(nodes, wc, counts))
    ensures LeaveFor(nodes, wc, Parse(Rom.Image(nodes, numLeaves, leaveBytes)).value.1, counts)
      == Rom.LeaveValueOf(nodes, wc, leaveBytes, counts)
  {
    ParseImage(nodes, numLeaves, leaveBytes);
    if SumTo(counts, ALPHABET_SIZE) != 0 {
      var E := Game.Expand(counts, ALPHABET_SIZE);
      assert |E| > 0;
      Rom.IndexFromNonNegative(nodes, wc, DawgRoot(nodes), 0, E);
    }
  }

  /** gxtest::KLV: the nodes, the leave values and the word counts, each a
    * vector. */
  class Klv {
    var kwg: seq<Node>
    var leaves: seq<int>
    var wordCounts: seq<nat>

    /** A count per node. */
    ghost predicate Valid()
      reads this
    {
      |wordCounts| == |kwg|
    }

    /** KLV(): nothing loaded. */
    constructor ()
      ensures Valid() && kwg == [] && leaves == [] && wordCounts == []
    {
      kwg := [];
      leaves := [];
      wordCounts := [];
    }

    /** KLV::Load over the file's bytes: the header and body as Parse reads
      * them, then the word counts. The counts pass repeats until nothing
      * changes; the model allows at most `fuel` passes after the first and
      * reports whether the counts settled. */
    method Load(data: seq<Byte>, fuel: nat) returns (ok: bool, settled: bool)
      modifies this
      ensures ok <==> Parse(data).Some?
      ensures ok ==> Valid() && kwg == Parse(data).value.0 && leaves == Parse(data).value.1
      ensures settled ==> ok && Rom.Fixpoint(kwg, wordCounts)
    {
      ok, settled := false, false;
      if |data| < 4 {
        return;
      }
      var kwgSize := Rom.ReadLe32(data, 0);
      if kwgSize == 0 || kwgSize > MAX_FIELD {
        return;
      }
      if |data| < 4 + 4 * kwgSize {
        return;
      }
      var nodes := ReadNodes(data, kwgSize);
      kwg := nodes;
      if |data| < 8 + 4 * kwgSize {
        return;
      }
      var numLeaves := Rom.ReadLe32(data, 4 + 4 * kwgSize);
      if numLeaves == 0 || numLeaves > MAX_FIELD {
        return;
      }
      if |data| < 8 + 4 * kwgSize + 2 * numLeaves {
        return;
      }
      var values := ReadLeaves(data, 8 + 4 * kwgSize, numLeaves);
      leaves := values;
      settled := ComputeWordCounts(fuel);
      ok := true;
    }

    /** The node loop of Load: n little-endian uint32s after the count. */
    static method ReadNodes(data: seq<Byte>, n: nat) returns (nodes: seq<Node>)
      requires 4 + 4 * n <= |data|
      ensures nodes == NodesOf(data, n)
    {
      nodes := [];
      var i := 0;
      while i < n
        invariant 0 <= i <= n && |nodes| == i
        invariant forall j :: 0 <= j < i ==> nodes[j] == Rom.ReadLe32(data, 4 + 4 * j)
      {
        nodes := nodes + [Rom.ReadLe32(data, 4 + 4 * i)];
        i := i + 1;
      }
    }

    /** The leave loop of Load: m little-endian int16s from byte at. */
    static method ReadLeaves(data: seq<Byte>, at: nat, m: nat) returns (values: seq<int>)
      requires at + 2 * m <= |data|
      ensures values == LeavesOf(data, at, m)
    {
      values := [];
      var i := 0;
      while i < m
        invariant 0 <= i <= m && |values| == i
        invariant forall j :: 0 <= j < i ==> values[j] == Rom.ReadLe16(data, at + 2 * j)
      {
        values := values + [Rom.ReadLe16(data, at + 2 * i)];
        i := i + 1;
      }
    }

    /** KLV::ComputeWordCounts: the counts resized to the node count (old
      * values kept, new ones zero), then passes until one changes nothing;
      * the counts then solve the word-count equation. */
    method ComputeWordCounts(fuel: nat) returns (settled: bool)
      modifies this
      ensures Valid() && kwg == old(kwg) && leaves == old(leaves)
      ensures settled ==> Rom.Fixpoint(kwg, wordCounts)
    {
      wordCounts := Resized(wordCounts, |kwg|);
      var changed := Pass();
      var left := fuel;
      while changed && left > 0
        invariant Valid() && kwg == old(kwg) && leaves == old(leaves)
        invariant !changed ==> Rom.Fixpoint(kwg, wordCounts)
      {
        changed := Pass();
        left := left - 1;
      }
      settled := !changed;
    }

    /** One pass of the do-while in ComputeWordCounts, from the last node
      * down to node 0: every count becomes Rom.CountAt over the counts as
      * the pass leaves them above it and as they were below it; the pass
      * reports whether a count moved, and one that moved none found a
      * fixpoint. */
    method Pass() returns (changed: bool)
      requires Valid()
      modifies this
      ensures Valid() && kwg == old(kwg) && leaves == old(leaves)
      ensures Rom.PassDone(kwg, wordCounts, old(wordCounts), 0)
      ensures changed <==> wordCounts != old(wordCounts)
      ensures !changed ==> Rom.Fixpoint(kwg, wordCounts)
    {
      ghost var before := wordCounts;
      changed := false;
      ghost var moved := 0;
      var size := |kwg|;
      var i := size;
      while i > 0
        invariant 0 <= i <= size && Valid() && kwg == old(kwg) && leaves == old(leaves)
        invariant Rom.PassDone(kwg, wordCounts, before, i)
        invariant !changed ==> wordCounts == before
        invariant changed ==> i <= moved < size && wordCounts[moved] != before[moved]
      {
        i := i - 1;
        ghost var W := wordCounts;
        var node := kwg[i];
        var count := 0;
        if Accepts(node) {
          count := 1;
        }
        var child := ArcIndex(node);
        if child != 0 && child < size {
          count := count + wordCounts[child];
        }
        if !IsEnd(node) && i + 1 < size {
          count := count + wordCounts[i + 1];
        }
        assert count == Rom.CountAt(kwg, i, W, before);
        Rom.PassStep(kwg, W, before, i);
        if wordCounts[i] != count {
          wordCounts := wordCounts[i := count];
          changed, moved := true, i;
        }
      }
      if changed {
        assert wordCounts[moved] != before[moved];
      } else {
        assert Rom.Fixpoint(kwg, wordCounts);
      }
    }

    /** KLV::GetDawgRoot: node 0's arc, 0 when nothing is loaded. */
    function GetDawgRoot(): (r: nat)
      reads this
      ensures kwg == [] ==> r == 0
      ensures WellFormed(kwg) ==> r == DawgRoot(kwg)
    {
      if kwg == [] then 0 else ArcIndex(kwg[0])
    }

    /** KLV::IncrementToLetter: the node of the letter in node n's run and
      * the word index there, as Increment says; the scan checks the end
      * of the vector before reading the next node's count. */
    method IncrementToLetter(n: nat, idx: int, ml: MachineLetter) returns (found: nat, next: int)
      requires Valid()
      ensures (found, next) == Increment(kwg, wordCounts, n, idx, ml)
    {
      if n == 0 || n >= |kwg| {
        return 0, Rom.UNFOUND_INDEX;
      }
      var k := n;
      var acc := idx;
      while true
        invariant n <= k < |kwg|
        invariant ScanFrom(kwg, wordCounts, k, acc, ml) == Increment(kwg, wordCounts, n, idx, ml)
        decreases |kwg| - k
      {
        var node := kwg[k];
        if Tile(node) == ml {
          return k, acc;
        }
        if IsEnd(node) {
          return 0, Rom.UNFOUND_INDEX;
        }
        if k + 1 >= |kwg| {
          return 0, Rom.UNFOUND_INDEX;
        }
        acc := acc + wordCounts[k] - wordCounts[k + 1];
        k := k + 1;
      }
    }

    /** KLV::FollowArc: node n's child run and the index one further on;
      * node 0 or a node past the end gives 0 and the unfound index. */
    function FollowArc(n: nat, idx: int): (r: (nat, int))
      reads this
      ensures n == 0 || n >= |kwg| ==> r == (0, Rom.UNFOUND_INDEX)
      ensures 0 < n < |kwg| ==> r.1 == idx + 1 && (ArcsFit(kwg) ==> r.0 < |kwg|)
    {
      if n == 0 || n >= |kwg| then (0, Rom.UNFOUND_INDEX) else (ArcIndex(kwg[n]), idx + 1)
    }

    /** KLV::GetWordIndex: the unfound index for an empty rack, otherwise
      * the walk over the rack's letters in ascending order from the DAWG
      * root. On a lexicon the ROM accepts and a rack whose total matches
      * its counts this is the ROM's klv_get_word_index. */
    method GetWordIndex(rack: Rack) returns (index: int)
      requires Valid() && rack.Valid()
      ensures rack.total == 0 ==> index == Rom.UNFOUND_INDEX
      ensures WellFormed(kwg) && rack.Consistent() ==>
        index == Rom.WordIndexOf(kwg, wordCounts, rack.counts[..])
    {
      if rack.total == 0 {
        return Rom.UNFOUND_INDEX;
      }
      var ml, mlCount := FirstLetter(rack);
      index := Walk(rack, GetDawgRoot(), ml, mlCount);
      if WellFormed(kwg) && rack.Consistent() {
        ghost var E := Game.Expand(rack.counts[..], ALPHABET_SIZE);
        assert E[0..] == E;
      }
    }

    /** The first loop of GetWordIndex: the lowest letter on the rack and
      * its count, or one past the alphabet and 0 when every count is 0. */
    static method FirstLetter(rack: Rack) returns (ml: int, mlCount: int)
      requires rack.Valid()
      ensures 0 <= ml <= ALPHABET_SIZE && (mlCount > 0 ==> ml < ALPHABET_SIZE) && mlCount >= 0
      ensures Placed(rack.counts[..], ml, mlCount, 0)
      ensures SumTo(rack.counts[..], ALPHABET_SIZE) > 0 ==> mlCount > 0
    {
      ghost var cs: seq<nat> := rack.counts[..];
      ml, mlCount := 0, 0;
      while ml < ALPHABET_SIZE
        invariant 0 <= ml <= ALPHABET_SIZE && SumTo(cs, ml) == 0 && mlCount == 0
      {
        if rack.counts[ml] > 0 {
          mlCount := rack.counts[ml];
          return;
        }
        ml := ml + 1;
      }
    }

    /** The second loop of GetWordIndex, from node `start` with the current
      * letter ml and mlCount copies of it left: one letter per pass, found
      * in the current run, then the arc to the next run, until the rack's
      * total is used up. On a lexicon the ROM accepts and a consistent
      * rack it computes the ROM's walk over the rack's ascending spelling. */
    method Walk(rack: Rack, start: nat, ml0: int, mlCount0: int) returns (index: int)
      requires Valid() && rack.Valid() && rack.total > 0
      requires 0 <= ml0 <= ALPHABET_SIZE && (mlCount0 > 0 ==> ml0 < ALPHABET_SIZE) && mlCount0 >= 0
      requires Placed(rack.counts[..], ml0, mlCount0, 0)
      requires SumTo(rack.counts[..], ALPHABET_SIZE) > 0 ==> mlCount0 > 0
      ensures WellFormed(kwg) && rack.Consistent() && start < |kwg| ==>
        index == Rom.IndexFrom(kwg, wordCounts, start, 0, Game.Expand(rack.counts[..], ALPHABET_SIZE))
    {
      ghost var cs: seq<nat> := rack.counts[..];
      ghost var E := Game.Expand(cs, ALPHABET_SIZE);
      ghost var cons := WellFormed(kwg) && rack.Consistent() && start < |kwg|;
      ghost var target := if cons then Rom.IndexFrom(kwg, wordCounts, start, 0, E) else 0;
      var node := start;
      var idx := 0;
      var ml, mlCount := ml0, mlCount0;
      var remaining := rack.total;
      ghost var pos: nat := 0;
      assert cons ==> E[pos..] == E;
      while node != 0
        invariant remaining > 0 && 0 <= ml <= ALPHABET_SIZE && (mlCount > 0 ==> ml < ALPHABET_SIZE)
        invariant cons ==> WalkAt(kwg, wordCounts, cs, node, ml, mlCount, pos, remaining)
        invariant cons ==> target == Rom.IndexFrom(kwg, wordCounts, node, idx, E[pos..])
        decreases remaining
      {
        var found, next := IncrementToLetter(node, idx, ml);
        if cons {
          WalkStep(kwg, wordCounts, cs, node, idx, pos, ml, mlCount, found, next);
        }
        if found == 0 {
          return Rom.UNFOUND_INDEX;
        }
        idx := next;
        mlCount := mlCount - 1;
        remaining := remaining - 1;
        pos := pos + 1;
        ml, mlCount := NextLetter(rack, ml, mlCount, pos);
        if remaining == 0 {
          return idx;
        }
        node, idx := FollowArc(found, idx).0, FollowArc(found, idx).1;
      }
      return Rom.UNFOUND_INDEX;
    }

    /** The inner loop of GetWordIndex: once the current letter's count
      * is used up, move to the next letter with a non-zero count, or past
      * the alphabet. A count that is not used up is kept. */
    static method NextLetter(rack: Rack, ml: int, mlCount: int, ghost pos: nat) returns (ml': int, mlCount': int)
      requires rack.Valid() && 0 <= ml <= ALPHABET_SIZE && (mlCount >= 0 ==> ml < ALPHABET_SIZE)
      ensures 0 <= ml' <= ALPHABET_SIZE && (mlCount' > 0 ==> ml' < ALPHABET_SIZE)
      ensures mlCount != 0 ==> ml' == ml && mlCount' == mlCount
      ensures mlCount' != 0 || ml' == ALPHABET_SIZE
      ensures mlCount >= 0 ==> mlCount' >= 0
      ensures Placed(rack.counts[..], ml, mlCount, pos) ==> Placed(rack.counts[..], ml', mlCount', pos)
    {
      ghost var cs: seq<nat> := rack.counts[..];
      ml', mlCount' := ml, mlCount;
      while mlCount' == 0
        invariant 0 <= ml' <= ALPHABET_SIZE && (mlCount' >= 0 ==> ml' < ALPHABET_SIZE)
        invariant mlCount != 0 ==> ml' == ml && mlCount' == mlCount
        invariant mlCount >= 0 ==> mlCount' >= 0
        invariant Placed(cs, ml, mlCount, pos) ==> Placed(cs, ml', mlCount', pos)
        decreases ALPHABET_SIZE - ml'
      {
        ml' := ml' + 1;
        if ml' >= ALPHABET_SIZE {
          break;
        }
        mlCount' := rack.counts[ml'];
      }
    }

    /** KLV::GetLeaveValue(const Rack&): 0 for an empty rack, and for an
      * index that is unfound or past the leave vector; otherwise the
      * stored value. */
    method GetLeaveValue(rack: Rack) returns (v: int)
      requires Valid() && rack.Valid()
      ensures rack.total == 0 ==> v == 0
      ensures WellFormed(kwg) && Rom.Fixpoint(kwg, wordCounts) && rack.Consistent() ==>
        v == LeaveFor(kwg, wordCounts, leaves, rack.counts[..])
    {
      if rack.total == 0 {
        return 0;
      }
      var index := GetWordIndex(rack);
      if WellFormed(kwg) && Rom.Fixpoint(kwg, wordCounts) && rack.Consistent() {
        ghost var cs: seq<nat> := rack.counts[..];
        Rom.IndexFromNonNegative(kwg, wordCounts, DawgRoot(kwg), 0, Game.Expand(cs, ALPHABET_SIZE));
      }
      if index == Rom.UNFOUND_INDEX || index < 0 || index >= |leaves| {
        return 0;
      }
      return leaves[index];
    }

    /** KLV::GetLeaveValue(const std::string&): the value of the rack the
      * string spells. Up to 255 characters no count wraps. */
    method GetLeaveValueOf(s: string) returns (v: int)
      requires Valid()
      ensures Recognised(s) == 0 ==> v == 0
      ensures WellFormed(kwg) && Rom.Fixpoint(kwg, wordCounts) && |s| < 256 ==>
        v == LeaveFor(kwg, wordCounts, leaves, TallyOnto(Empty(), s))
    {
      var rack := Rack.FromString(s);
      if |s| < 256 {
        TallySum(s);
      }
      v := GetLeaveValue(rack);
    }
  }
}
