// src/main.c: the move history the sidebar shows. add_to_history records a
// played move, spelling its word from the move's tiles and, for squares the
// move plays through, from the board; an exchange is recorded as '-' and
// the exchanged letters. The board's h_letters array is a parameter.
module History {
  import opened Defs
  import Equity
  import Board
  import Graphics

  /** MAX_HISTORY: the number of entries kept. */
  const MAX_HISTORY: int := 28

  /** The zero-initialised entry of the static array. */
  function EmptyEntry(): (e: Graphics.HistoryEntry)
    ensures |e.word| == 16
  {
    Graphics.HistoryEntry(seq(16, _ => '\0'), 0, 0, 0, 0, 0)
  }

  // ---------------------------------------------------------------------
  // The blanks bitmask

  /** A mask below 1 << i has no bit from i up. */
  lemma {:induction false} BitsAbove(a: nat, i: nat, j: nat)
    requires a < Graphics.Pow2(i) && i <= j
    ensures !Graphics.BitSet(a, j)
  {
    if j > 0 {
      if i == 0 {
        assert a == 0;
        BitsAbove(0, 0, j - 1);
      } else {
        BitsAbove(a / 2, i - 1, j - 1);
      }
    }
  }

  /** Setting bit i of a mask below 1 << i, which is adding 1 << i, sets
    * bit i and leaves every other bit as it was. */
  lemma {:induction false} BitAdd(a: nat, i: nat, j: nat)
    requires a < Graphics.Pow2(i)
    ensures Graphics.BitSet(a + Graphics.Pow2(i), j) <==> j == i || Graphics.BitSet(a, j)
  {
    if i == 0 {
      assert a == 0;
      if j > 0 {
        BitsAbove(0, 0, j - 1);
      }
    } else if j > 0 {
      assert (a + Graphics.Pow2(i)) / 2 == a / 2 + Graphics.Pow2(i - 1);
      BitAdd(a / 2, i - 1, j - 1);
    }
  }

  // ---------------------------------------------------------------------
  // Spelling a move

  predicate IsLetter(l: int) { 1 <= l <= 26 }

  /** 'A' + (letter - 1) for a letter, '?' for anything else. */
  function LetterChar(ml: MachineLetter): (c: char)
    ensures c != '\0'
    ensures IsLetter(Unblanked(ml)) ==> 'A' <= c <= 'Z' && c as int - 'A' as int + 1 == Unblanked(ml)
    ensures !IsLetter(Unblanked(ml)) ==> c == '?'
  {
    var l := Unblanked(ml);
    if IsLetter(l) then ('A' as int + (l - 1)) as char else '?'
  }

  /** The number of letters add_to_history records: tiles_length, at most 15. */
  function WordLen(m: Move): (n: nat)
    requires m.tilesLength >= 0
    ensures n <= 15 && n <= m.tilesLength
  {
    if m.tilesLength > 15 then 15 else m.tilesLength
  }

  /** The h_letters index of the i-th square of the move. */
  function Square(m: Move, i: int): int
  {
    Board.MoveSquare(m, i).0 * BOARD_DIM + Board.MoveSquare(m, i).1
  }

  /** What add_to_history reads: the move's first WordLen tiles, and the
    * board square of each one that holds no letter. */
  predicate Readable(m: Move, letters: seq<MachineLetter>)
  {
    |letters| == BOARD_SIZE && m.tilesLength >= 0 && WordLen(m) <= |m.tiles| &&
    forall i :: 0 <= i < WordLen(m) && !IsLetter(Unblanked(m.tiles[i])) ==> 0 <= Square(m, i) < BOARD_SIZE
  }

  /** The machine letter spelled at position i: the tile, or the board's
    * letter when the tile is none. */
  function Source(m: Move, letters: seq<MachineLetter>, i: nat): MachineLetter
    requires Readable(m, letters) && i < WordLen(m)
  {
    if IsLetter(Unblanked(m.tiles[i])) then m.tiles[i] else letters[Square(m, i)]
  }

  /** Position i is a blank: its letter is valid and its blank bit is set. */
  predicate BlankAt(m: Move, letters: seq<MachineLetter>, i: nat)
    requires Readable(m, letters) && i < WordLen(m)
  {
    IsLetter(Unblanked(Source(m, letters, i))) && IsBlanked(Source(m, letters, i))
  }

  /** The first n characters of the recorded word. */
  function Spelling(m: Move, letters: seq<MachineLetter>, n: nat): (s: seq<char>)
    requires Readable(m, letters) && n <= WordLen(m)
    ensures |s| == n
  {
    if n == 0 then [] else Spelling(m, letters, n - 1) + [LetterChar(Source(m, letters, n - 1))]
  }

  /** The blanks mask after the first n positions. */
  function Mask(m: Move, letters: seq<MachineLetter>, n: nat): nat
    requires Readable(m, letters) && n <= WordLen(m)
  {
    if n == 0 then 0
    else Mask(m, letters, n - 1) + (if BlankAt(m, letters, n - 1) then Graphics.Pow2(n - 1) else 0)
  }

  /** The mask after n positions has no bit from n up, and bit j set exactly
    * when position j is a blank. */
  lemma {:induction false} MaskBits(m: Move, letters: seq<MachineLetter>, n: nat)
    requires Readable(m, letters) && n <= WordLen(m)
    ensures Mask(m, letters, n) < Graphics.Pow2(n)
    ensures forall j: nat :: Graphics.BitSet(Mask(m, letters, n), j) <==> j < n && BlankAt(m, letters, j)
  {
    if n > 0 {
      MaskBits(m, letters, n - 1);
      var a := Mask(m, letters, n - 1);
      assert Graphics.Pow2(n) == 2 * Graphics.Pow2(n - 1);
      assert Mask(m, letters, n) == a + (if BlankAt(m, letters, n - 1) then Graphics.Pow2(n - 1) else 0);
      forall j: nat
        ensures Graphics.BitSet(Mask(m, letters, n), j) <==> j < n && BlankAt(m, letters, j)
      {
        if BlankAt(m, letters, n - 1) {
          BitAdd(a, n - 1, j);
        }
      }
    } else {
      forall j: nat
        ensures !Graphics.BitSet(0, j)
      {
        BitsAbove(0, 0, j);
      }
    }
  }

  /** A word buffer with chars written from the start and a NUL after them;
    * the bytes behind the NUL keep what the slot held before. */
  function Stamp(word: seq<char>, chars: seq<char>): (w: seq<char>)
    requires |chars| < |word|
    ensures |w| == |word|
  {
    chars + ['\0'] + word[|chars| + 1..]
  }

  /** Read as a C string, a stamped buffer is exactly the chars written. */
  lemma StampedString(word: seq<char>, chars: seq<char>)
    requires |chars| < |word| && '\0' !in chars
    ensures Graphics.CString(Stamp(word, chars)) == chars
  {
    var w := Stamp(word, chars);
    CStringPrefix(w, |chars|);
  }

  lemma {:induction false} CStringPrefix(s: seq<char>, k: nat)
    requires k < |s| && s[k] == '\0' && '\0' !in s[..k]
    ensures Graphics.CString(s) == s[..k]
  {
    if k > 0 {
      assert s[0] == s[..k][0];
      assert s[1..][..k - 1] == s[1..k];
      CStringPrefix(s[1..], k - 1);
    }
  }

  /** The entry add_to_history leaves in a slot that held old. */
  function Recorded(old_: Graphics.HistoryEntry, m: Move, player: int, letters: seq<MachineLetter>, frames: nat): Graphics.HistoryEntry
    requires Readable(m, letters) && |old_.word| == 16
  {
    Graphics.HistoryEntry(Stamp(old_.word, Spelling(m, letters, WordLen(m))), Mask(m, letters, WordLen(m)),
      Equity.ToInt16(m.score), Equity.ToInt16(m.equity), frames, player % 256)
  }

  /** The number of letters an exchange entry records: tiles_played, at
    * most 14. */
  function ExchangeLen(m: Move): (n: nat)
    requires m.tilesPlayed >= 0
    ensures n <= 14 && n <= m.tilesPlayed
  {
    if m.tilesPlayed > 14 then 14 else m.tilesPlayed
  }

  /** The first n exchanged letters as characters. */
  function Exchanged(tiles: seq<MachineLetter>, n: nat): (s: seq<char>)
    requires n <= |tiles|
    ensures |s| == n
  {
    if n == 0 then [] else Exchanged(tiles, n - 1) + [LetterChar(tiles[n - 1])]
  }

  /** The entry recorded for an exchange in a slot that held old. */
  function ExchangeEntry(old_: Graphics.HistoryEntry, m: Move, lastMoveFrames: nat, player: int): Graphics.HistoryEntry
    requires m.tilesPlayed >= 0 && ExchangeLen(m) <= |m.tiles| && |old_.word| == 16
  {
    Graphics.HistoryEntry(Stamp(old_.word, ['-'] + Exchanged(m.tiles, ExchangeLen(m))), 0, 0,
      Equity.ToInt16(m.equity), lastMoveFrames % 0x1_0000, player % 256)
  }

  /** The recorded word reads back as the move's letters, one per tile, at
    * most 15 of them, with '?' where no letter could be found. */
  lemma RecordedWord(old_: Graphics.HistoryEntry, m: Move, player: int, letters: seq<MachineLetter>, frames: nat)
    requires Readable(m, letters) && |old_.word| == 16
    ensures var w := Graphics.CString(Recorded(old_, m, player, letters, frames).word);
      |w| == WordLen(m) &&
      forall i :: 0 <= i < |w| ==> w[i] == LetterChar(Source(m, letters, i))
  {
    var s := Spelling(m, letters, WordLen(m));
    SpellingChars(m, letters, WordLen(m));
    StampedString(old_.word, s);
  }

  /** Bit j of the recorded blanks mask is set exactly when letter j of the
    * word is a blank, and the mask fits in 15 bits. */
  lemma RecordedBlanks(old_: Graphics.HistoryEntry, m: Move, player: int, letters: seq<MachineLetter>, frames: nat)
    requires Readable(m, letters) && |old_.word| == 16
    ensures var b := Recorded(old_, m, player, letters, frames).blanks;
      b < 0x8000 && forall j: nat :: Graphics.BitSet(b, j) <==> j < WordLen(m) && BlankAt(m, letters, j)
  {
    MaskBits(m, letters, WordLen(m));
    Pow2Grows(WordLen(m), 15);
    assert Graphics.Pow2(15) == 0x8000;
  }

  lemma {:induction false} Pow2Grows(i: nat, k: nat)
    requires i <= k
    ensures Graphics.Pow2(i) <= Graphics.Pow2(k)
    decreases k
  {
    if i < k {
      Pow2Grows(i, k - 1);
    }
  }

  lemma {:induction false} SpellingChars(m: Move, letters: seq<MachineLetter>, n: nat)
    requires Readable(m, letters) && n <= WordLen(m)
    ensures forall i :: 0 <= i < n ==> Spelling(m, letters, n)[i] == LetterChar(Source(m, letters, i))
    ensures '\0' !in Spelling(m, letters, n)
  {
    if n > 0 {
      SpellingChars(m, letters, n - 1);
    }
  }

  /** An exchange entry reads back as '-' and the first (at most 14)
    * exchanged letters, and carries no blanks and no score. */
  lemma ExchangeWord(old_: Graphics.HistoryEntry, m: Move, lastMoveFrames: nat, player: int)
    requires m.tilesPlayed >= 0 && ExchangeLen(m) <= |m.tiles| && |old_.word| == 16
    ensures var e := ExchangeEntry(old_, m, lastMoveFrames, player);
      var w := Graphics.CString(e.word);
      |w| == 1 + ExchangeLen(m) && w[0] == '-' &&
      (forall i :: 0 <= i < ExchangeLen(m) ==> w[1 + i] == LetterChar(m.tiles[i])) &&
      e.blanks == 0 && e.score == 0
  {
    var s := Exchanged(m.tiles, ExchangeLen(m));
    ExchangedChars(m.tiles, ExchangeLen(m));
    StampedString(old_.word, ['-'] + s);
  }

  lemma {:induction false} ExchangedChars(tiles: seq<MachineLetter>, n: nat)
    requires n <= |tiles|
    ensures forall i :: 0 <= i < n ==> Exchanged(tiles, n)[i] == LetterChar(tiles[i])
    ensures '\0' !in Exchanged(tiles, n)
  {
    if n > 0 {
      ExchangedChars(tiles, n - 1);
    }
  }

  /** What the sidebar shows for a recorded move: word cell j holds letter j
    * of the move, grey exactly when that letter is a blank, for as many
    * letters as were recorded (at most nine show), then spaces. */
  lemma SidebarWord(old_: Graphics.HistoryEntry, m: Move, player: int, letters: seq<MachineLetter>, frames: nat, y: int)
    requires Readable(m, letters) && |old_.word| == 16
    ensures var e := Recorded(old_, m, player, letters, frames);
      var cells := Graphics.WordCells(y, e.word, e.blanks, 0, false);
      |cells| == 9 &&
      forall j :: 0 <= j < 9 ==>
        cells[j] == Graphics.Put(Graphics.HISTORY_COL + 1 + j, y,
                                 if j < WordLen(m) then LetterChar(Source(m, letters, j)) as int else ' ' as int,
                                 if j < WordLen(m) && BlankAt(m, letters, j) then 1 else 0)
  {
    var e := Recorded(old_, m, player, letters, frames);
    RecordedWord(old_, m, player, letters, frames);
    RecordedBlanks(old_, m, player, letters, frames);
    var w := Graphics.CString(e.word);
    assert forall k :: 0 <= k < |w| ==> e.word[k] == w[k];
    Graphics.WordCellsText(y, e.word, e.blanks);
  }

  /** What the sidebar shows for an exchange: '-' and the exchanged letters,
    * none of them grey, then spaces. */
  lemma SidebarExchange(old_: Graphics.HistoryEntry, m: Move, lastMoveFrames: nat, player: int, y: int)
    requires m.tilesPlayed >= 0 && ExchangeLen(m) <= |m.tiles| && |old_.word| == 16
    ensures var e := ExchangeEntry(old_, m, lastMoveFrames, player);
      var cells := Graphics.WordCells(y, e.word, e.blanks, 0, false);
      |cells| == 9 &&
      cells[0] == Graphics.Put(Graphics.HISTORY_COL + 1, y, '-' as int, 0) &&
      forall j :: 1 <= j < 9 ==>
        cells[j] == Graphics.Put(Graphics.HISTORY_COL + 1 + j, y,
                                 if j <= ExchangeLen(m) then LetterChar(m.tiles[j - 1]) as int else ' ' as int, 0)
  {
    var e := ExchangeEntry(old_, m, lastMoveFrames, player);
    ExchangeWord(old_, m, lastMoveFrames, player);
    var w := Graphics.CString(e.word);
    assert forall k :: 0 <= k < |w| ==> e.word[k] == w[k];
    forall k | 1 <= k < |w|
      ensures Graphics.Printable(w[k] as int)
    {
      assert w[1 + (k - 1)] == LetterChar(m.tiles[k - 1]);
    }
    assert forall j: nat :: !Graphics.BitSet(0, j) by {
      forall j: nat ensures !Graphics.BitSet(0, j) {
        BitsAbove(0, 0, j);
      }
    }
    Graphics.WordCellsText(y, e.word, e.blanks);
  }

  // ---------------------------------------------------------------------
  // The history array

  /** history[MAX_HISTORY] and history_count. */
  class Log {
    const entries: array<Graphics.HistoryEntry>
    var count: int

    ghost predicate Valid()
      reads this, entries
    {
      entries.Length == MAX_HISTORY && 0 <= count <= MAX_HISTORY &&
      forall i :: 0 <= i < MAX_HISTORY ==> |entries[i].word| == 16
    }

    constructor ()
      ensures Valid() && count == 0 && fresh(entries)
      ensures forall i :: 0 <= i < MAX_HISTORY ==> entries[i] == EmptyEntry()
    {
      entries := new Graphics.HistoryEntry[MAX_HISTORY](_ => EmptyEntry());
      count := 0;
    }

    /** The shift of a full history: every entry moves down one slot, the
      * oldest is lost and the last slot keeps its old contents. */
    method ShiftDown()
      requires Valid() && count == MAX_HISTORY
      modifies this, entries
      ensures Valid() && count == MAX_HISTORY - 1
      ensures forall i :: 0 <= i < MAX_HISTORY - 1 ==> entries[i] == old(entries[i + 1])
      ensures entries[MAX_HISTORY - 1] == old(entries[MAX_HISTORY - 1])
    {
      var i := 0;
      while i < MAX_HISTORY - 1
        invariant 0 <= i <= MAX_HISTORY - 1 && count == MAX_HISTORY
        invariant forall k :: 0 <= k < i ==> entries[k] == old(entries[k + 1])
        invariant forall k :: i <= k < MAX_HISTORY ==> entries[k] == old(entries[k])
      {
        entries[i] := entries[i + 1];
        i := i + 1;
      }
      count := MAX_HISTORY - 1;
    }

    /** add_to_history: shift if full, then fill the next slot from the move
      * and the board. */
    method AddToHistory(m: Move, player: int, letters: seq<MachineLetter>, frames: nat)
      requires Valid() && Readable(m, letters) && frames < 0x1_0000
      modifies this, entries
      ensures Valid()
      ensures count == (if old(count) == MAX_HISTORY then MAX_HISTORY else old(count) + 1)
      ensures old(count) < MAX_HISTORY ==>
        (forall i :: 0 <= i < MAX_HISTORY && i != old(count) ==> entries[i] == old(entries[i])) &&
        entries[old(count)] == Recorded(old(entries[count]), m, player, letters, frames)
      ensures old(count) == MAX_HISTORY ==>
        (forall i :: 0 <= i < MAX_HISTORY - 1 ==> entries[i] == old(entries[i + 1])) &&
        entries[MAX_HISTORY - 1] == Recorded(old(entries[MAX_HISTORY - 1]), m, player, letters, frames)
    {
      if count >= MAX_HISTORY {
        ShiftDown();
      }
      var slot := count;
      count := count + 1;
      var h := entries[slot];
      var word, blanks := Spell(m, letters, h.word);
      entries[slot] := Graphics.HistoryEntry(word, blanks, Equity.ToInt16(m.score), Equity.ToInt16(m.equity), frames, player % 256);
    }

    /** The exchange entry of the game loop: the next slot while there is
      * one, else the last slot, overwritten in place without a shift. */
    method AddExchange(m: Move, lastMoveFrames: nat, player: int)
      requires Valid() && m.tilesPlayed >= 0 && ExchangeLen(m) <= |m.tiles|
      modifies this, entries
      ensures Valid()
      ensures count == (if old(count) < MAX_HISTORY then old(count) + 1 else MAX_HISTORY)
      ensures old(count) < MAX_HISTORY ==>
        (forall i :: 0 <= i < MAX_HISTORY && i != old(count) ==> entries[i] == old(entries[i])) &&
        entries[old(count)] == ExchangeEntry(old(entries[count]), m, lastMoveFrames, player)
      ensures old(count) == MAX_HISTORY ==>
        (forall i :: 0 <= i < MAX_HISTORY - 1 ==> entries[i] == old(entries[i])) &&
        entries[MAX_HISTORY - 1] == ExchangeEntry(old(entries[MAX_HISTORY - 1]), m, lastMoveFrames, player)
    {
      var slot;
      if count < MAX_HISTORY {
        slot := count;
        count := count + 1;
      } else {
        slot := MAX_HISTORY - 1;
      }
      var h := entries[slot];
      var len := if m.tilesPlayed > 14 then 14 else m.tilesPlayed;
      var word := SpellExchange(m.tiles, len, h.word);
      entries[slot] := Graphics.HistoryEntry(word, 0, 0, Equity.ToInt16(m.equity), lastMoveFrames % 0x1_0000, player % 256);
    }
  }

  /** Writing c at position i of a buffer whose first i characters are done
    * and whose rest is still the old buffer's. */
  lemma WriteNext(word: seq<char>, i: nat, c: char, done: seq<char>, old_: seq<char>)
    requires i < |word| == |old_| && word[..i] == done && word[i..] == old_[i..]
    ensures word[i := c][..i + 1] == done + [c] && word[i := c][i + 1..] == old_[i + 1..]
  {
    assert word[i := c][..i] == word[..i];
  }

  /** The exchange entry's letter loop: '-', then the letters, then the
    * NUL, over the slot's old word buffer. */
  method SpellExchange(tiles: seq<MachineLetter>, len: nat, old_: seq<char>) returns (word: seq<char>)
    requires len <= 14 && len <= |tiles| && |old_| == 16
    ensures word == Stamp(old_, ['-'] + Exchanged(tiles, len))
  {
    word := old_[0 := '-'];
    var i := 0;
    while i < len
      invariant 0 <= i <= len && |word| == 16
      invariant word[..1 + i] == ['-'] + Exchanged(tiles, i) && word[1 + i..] == old_[1 + i..]
    {
      var ml := tiles[i];
      var letter := Unblanked(ml);
      var c;
      if 1 <= letter <= 26 {
        c := ('A' as int + (letter - 1)) as char;
      } else {
        c := '?';
      }
      WriteNext(word, 1 + i, c, ['-'] + Exchanged(tiles, i), old_);
      word := word[1 + i := c];
      i := i + 1;
    }
    word := word[1 + len := '\0'];
    assert word == Stamp(old_, ['-'] + Exchanged(tiles, len));
  }

  /** The machine letter add_to_history spells at position i: the tile, or
    * when that is no letter the board's letter on the tile's square. */
  method Lookup(m: Move, letters: seq<MachineLetter>, i: nat) returns (ml: MachineLetter)
    requires Readable(m, letters) && i < WordLen(m)
    ensures ml == Source(m, letters, i)
  {
    ml := m.tiles[i];
    var letter := Unblanked(ml);
    if !(1 <= letter <= 26) {
      var r, c := m.rowStart, m.colStart;
      if m.dir == DIR_H {
        c := c + i;
      } else {
        r := r + i;
      }
      var idx := r * BOARD_DIM + c;
      ml := letters[idx];
    }
  }

  /** add_to_history's letter loop: the word and the blanks mask, written
    * over the slot's old word buffer. */
  method Spell(m: Move, letters: seq<MachineLetter>, old_: seq<char>) returns (word: seq<char>, blanks: nat)
    requires Readable(m, letters) && |old_| == 16
    ensures word == Stamp(old_, Spelling(m, letters, WordLen(m)))
    ensures blanks == Mask(m, letters, WordLen(m))
  {
    var len := if m.tilesLength > 15 then 15 else m.tilesLength;
    word := old_;
    blanks := 0;
    var i := 0;
    while i < len
      invariant 0 <= i <= len && |word| == 16
      invariant word[..i] == Spelling(m, letters, i) && word[i..] == old_[i..]
      invariant blanks == Mask(m, letters, i)
    {
      var ml := Lookup(m, letters, i);
      var letter := Unblanked(ml);
      var c;
      if 1 <= letter <= 26 {
        c := ('A' as int + (letter - 1)) as char;
        if IsBlanked(ml) {
          blanks := blanks + Graphics.Pow2(i);
        }
      } else {
        c := '?';
      }
      WriteNext(word, i, c, Spelling(m, letters, i), old_);
      word := word[i := c];
      i := i + 1;
    }
    word := word[len := '\0'];
    assert word == Stamp(old_, Spelling(m, letters, len));
  }
}
