/**
 The bytes of a frame: byte o of a page is byte o % 8, least significant first, of its word o / 8.
 */
module Bytes {
  import opened PageTables
  import opened Addresses

  type Byte = n: nat | n < 0x100

  /** Byte b of the number v. */
  function Digit(v: nat, b: nat): Byte {
    if b == 0 then v % 0x100 else Digit(v / 0x100, b - 1)
  }

  /** v with byte b replaced. */
  function Replaced(v: nat, b: nat, x: Byte): nat {
    if b == 0 then v / 0x100 * 0x100 + x else Replaced(v / 0x100, b - 1, x) * 0x100 + v % 0x100
  }

  lemma {:induction false} DigitReplaced(v: nat, b: nat, x: Byte, c: nat)
    ensures Digit(Replaced(v, b, x), c) == if c == b then x else Digit(v, c)
    decreases c
  {
    var v' := Replaced(v, b, x);
    if c == 0 {
      assert v' % 0x100 == if b == 0 then x else v % 0x100;
    } else if b == 0 {
      assert v' / 0x100 == v / 0x100;
    } else {
      assert v' / 0x100 == Replaced(v / 0x100, b - 1, x);
      DigitReplaced(v / 0x100, b - 1, x, c - 1);
    }
  }

  /** The 64-bit value of a word. */
  function Value(w: Word): nat {
    w.frame * 0x1000 + w.flags
  }

  function WordOf(v: nat): Word {
    Word(v / 0x1000, v % 0x1000)
  }

  /** Byte o of a page. */
  function PageByte(page: seq<Word>, o: nat): Byte {
    if o / 8 < |page| then Digit(Value(page[o / 8]), o % 8) else 0
  }

  function WithByte(page: seq<Word>, o: nat, x: Byte): seq<Word> {
    if o / 8 < |page| then page[o / 8 := WordOf(Replaced(Value(page[o / 8]), o % 8, x))] else page
  }

  /** A byte written is read back there, and no other byte of the page changes. */
  lemma ByteWritten(page: seq<Word>, o: nat, x: Byte, o': nat)
    requires |page| == ENTRIES && o < PAGE
    ensures |WithByte(page, o, x)| == ENTRIES
    ensures PageByte(WithByte(page, o, x), o') == if o' == o then x else PageByte(page, o')
  {
    hide Digit, Replaced;
    if o' / 8 == o / 8 {
      var v := Value(page[o / 8]);
      assert Value(WordOf(Replaced(v, o % 8, x))) == Replaced(v, o % 8, x);
      DigitReplaced(v, o % 8, x, o' % 8);
    }
  }

  /** Little endian: byte j of word i is the j-th digit, from the lowest, of the word's value in base 256. */
  lemma LittleEndian(page: seq<Word>, i: nat, j: nat)
    requires i < |page| && j < 8
    ensures PageByte(page, 8 * i + j) == Digit(page[i].frame * 4096 + page[i].flags, j)
  {
    hide Digit;
    assert (8 * i + j) / 8 == i && (8 * i + j) % 8 == j;
  }

  lemma DigitStep(v: nat, j: nat)
    ensures Digit(v, 0) == v % 256 && Digit(v, j + 1) == Digit(v / 256, j)
  {
  }
}
