// Model of src/utils/bitmap.c: a pool of bits stored 32 to a word, used for
// physical frames and per-process user-stack slots.

/** Bits inside one 32-bit word and inside a sequence of words. */
module BitWords {
  /** Bit `off` of a word: `word & (0x1 << off)`. An offset is below 32,
      which a 5-bit vector states by its type. */
  predicate WordBit(w: bv32, off: bv5)
  {
    w & (1 << off) != 0
  }

  /** `v` is `w | (0x1 << off)`. */
  predicate SetsBit(w: bv32, v: bv32, off: bv5)
  {
    v == w | (1 << off)
  }

  /** `v` is `w & ~(0x1 << off)`. */
  predicate ClearsBit(w: bv32, v: bv32, off: bv5)
  {
    v == w & !(1 << off)
  }

  /** `word | (0x1 << off)` has bit `off` and the bits of `word`. */
  lemma SetBitExpr(w: bv32, off: bv5, k: bv5)
    ensures WordBit(w | (1 << off), k) == (k == off || WordBit(w, k))
  { }

  /** `word & ~(0x1 << off)` has the bits of `word` except bit `off`. */
  lemma ClearBitExpr(w: bv32, off: bv5, k: bv5)
    ensures WordBit(w & !(1 << off), k) == (k != off && WordBit(w, k))
  { }

  /** `word |= 0x1 << off` sets bit `off` and no other bit. */
  lemma SetWordBit(w: bv32, v: bv32, off: bv5, k: bv5)
    requires SetsBit(w, v, off)
    ensures WordBit(v, k) == (k == off || WordBit(w, k))
  {
    SetBitExpr(w, off, k);
  }

  /** `word &= ~(0x1 << off)` clears bit `off` and no other bit. */
  lemma ClearWordBit(w: bv32, v: bv32, off: bv5, k: bv5)
    requires ClearsBit(w, v, off)
    ensures WordBit(v, k) == (k != off && WordBit(w, k))
  {
    ClearBitExpr(w, off, k);
  }

  /** 0xFFFFFFFF has every bit set. */
  lemma FullWord(w: bv32, k: bv5)
    requires w == 0xFFFF_FFFF
    ensures WordBit(w, k)
  { }

  /** OFFSET_FROM_BIT: `bit % 32`. */
  function Offset(bit: nat): bv5
  {
    (bit % 32) as bv5
  }

  /** The offset, read back as a number, is `bit % 32`. */
  lemma OffsetValue(bit: nat)
    ensures Offset(bit) as int == bit % 32
  {
    var k := bit % 32;
    assert (k as bv5) as int == k;
  }

  /** Two bits of the same word are the same bit exactly when their offsets
      agree. */
  lemma SameWord(b: nat, bit: nat)
    requires b / 32 == bit / 32
    ensures b == bit <==> Offset(b) == Offset(bit)
  {
    OffsetValue(b);
    OffsetValue(bit);
  }

  /** Bit `bit` of a bitmap whose words are `ws`: word INDEX_FROM_BIT
      (`bit / 32`), bit OFFSET_FROM_BIT. */
  predicate Bit(ws: seq<bv32>, bit: nat)
    requires bit / 32 < |ws|
  {
    WordBit(ws[bit / 32], Offset(bit))
  }

  /** Replacing word `i` changes only the bits of that word. */
  lemma ReplaceWord(ws: seq<bv32>, i: nat, v: bv32, b: nat)
    requires i < |ws| && b / 32 < |ws|
    ensures Bit(ws[i := v], b) == if b / 32 == i then WordBit(v, Offset(b)) else Bit(ws, b)
  { }

  /** Setting bit `bit` of its word sets that bit and leaves every other bit
      as it was. */
  lemma SetBitOthers(ws: seq<bv32>, bit: nat, v: bv32, b: nat)
    requires bit / 32 < |ws| && b / 32 < |ws| && SetsBit(ws[bit / 32], v, Offset(bit))
    ensures Bit(ws[bit / 32 := v], b) == (b == bit || Bit(ws, b))
  {
    ReplaceWord(ws, bit / 32, v, b);
    if b / 32 == bit / 32 {
      SameWord(b, bit);
      SetWordBit(ws[bit / 32], v, Offset(bit), Offset(b));
    }
  }

  /** Clearing bit `bit` of its word clears that bit and leaves every other
      bit as it was. */
  lemma ClearBitOthers(ws: seq<bv32>, bit: nat, v: bv32, b: nat)
    requires bit / 32 < |ws| && b / 32 < |ws| && ClearsBit(ws[bit / 32], v, Offset(bit))
    ensures Bit(ws[bit / 32 := v], b) == (b != bit && Bit(ws, b))
  {
    ReplaceWord(ws, bit / 32, v, b);
    if b / 32 == bit / 32 {
      SameWord(b, bit);
      ClearWordBit(ws[bit / 32], v, Offset(bit), Offset(b));
    }
  }

  /** SetBitOthers for every bit at once. */
  lemma SetBitAll(ws: seq<bv32>, bit: nat, v: bv32)
    requires bit / 32 < |ws| && SetsBit(ws[bit / 32], v, Offset(bit))
    ensures forall b: nat :: b / 32 < |ws| ==> Bit(ws[bit / 32 := v], b) == (b == bit || Bit(ws, b))
  {
    forall b: nat | b / 32 < |ws|
      ensures Bit(ws[bit / 32 := v], b) == (b == bit || Bit(ws, b))
    {
      SetBitOthers(ws, bit, v, b);
    }
  }

  /** ClearBitOthers for every bit at once. */
  lemma ClearBitAll(ws: seq<bv32>, bit: nat, v: bv32)
    requires bit / 32 < |ws| && ClearsBit(ws[bit / 32], v, Offset(bit))
    ensures forall b: nat :: b / 32 < |ws| ==> Bit(ws[bit / 32 := v], b) == (b != bit && Bit(ws, b))
  {
    forall b: nat | b / 32 < |ws|
      ensures Bit(ws[bit / 32 := v], b) == (b != bit && Bit(ws, b))
    {
      ClearBitOthers(ws, bit, v, b);
    }
  }

  /** The bit `32 * i + j` is word `i`, offset `j`. */
  lemma BitAt(ws: seq<bv32>, i: nat, j: nat)
    requires i < |ws| && j < 32
    ensures (32 * i + j) / 32 == i && Offset(32 * i + j) == j as bv5
    ensures Bit(ws, 32 * i + j) == WordBit(ws[i], j as bv5)
  {
    assert (32 * i + j) / 32 == i && (32 * i + j) % 32 == j;
  }

  /** A clear bit found at word `i`, offset `j`, is bit `32 * i + j`. */
  lemma FoundClear(ws: seq<bv32>, i: nat, j: nat)
    requires i < |ws| && j < 32 && !WordBit(ws[i], j as bv5)
    ensures !Bit(ws, 32 * i + j)
  {
    BitAt(ws, i, j);
  }

  /** A set bit at word `i`, offset `j`, extends the run of set bits below
      `32 * i + j` by one. */
  lemma NextBit(ws: seq<bv32>, i: nat, j: nat)
    requires i < |ws| && j < 32 && WordBit(ws[i], j as bv5)
    requires forall b: nat :: b < 32 * i + j ==> Bit(ws, b)
    ensures forall b: nat :: b < 32 * i + j + 1 ==> Bit(ws, b)
  {
    BitAt(ws, i, j);
  }

  /** A word equal to 0xFFFFFFFF extends the run of set bits by 32. */
  lemma FullWordSet(ws: seq<bv32>, i: nat)
    requires i < |ws| && ws[i] == 0xFFFF_FFFF
    requires forall b: nat :: b < 32 * i ==> Bit(ws, b)
    ensures forall b: nat :: b < 32 * i + 32 ==> Bit(ws, b)
  {
    forall b: nat | 32 * i <= b < 32 * i + 32
      ensures Bit(ws, b)
    {
      BitAt(ws, i, b - 32 * i);
      FullWord(ws[i], (b - 32 * i) as bv5);
    }
  }

  /** `word | (0x1 << off)`, as bitmap_set_bit computes it. */
  function WithBit(w: bv32, off: bv5): (v: bv32)
    ensures SetsBit(w, v, off)
  {
    w | (1 << off)
  }

  /** `word & ~(0x1 << off)`, as bitmap_clear_bit computes it. */
  function WithoutBit(w: bv32, off: bv5): (v: bv32)
    ensures ClearsBit(w, v, off)
  {
    w & !(1 << off)
  }
}

module Bitmap {
  import opened Common
  import opened BitWords

  /** The words bitmap_create allocates when it is given no array:
      `kmalloc(array_size)` asks for `array_size` BYTES, which hold only a
      quarter as many 32-bit words. */
  function AllocatedWordsAsWritten(arraySize: nat): (r: nat)
    ensures 4 * r <= arraySize < 4 * r + 4
  {
    arraySize / 4
  }

  /** A self-allocated bitmap with at least one word is searched past the
      end of its allocation as written; the 4096-slot stack pool of a
      process searches 128 words of which 32 are allocated. */
  lemma AllocationShort(arraySize: nat)
    requires arraySize > 0
    ensures AllocatedWordsAsWritten(arraySize) < arraySize
    ensures AllocatedWordsAsWritten(4096 / 32) == 32
  { }

  class Bitmap {
    var words: array<bv32>
    var arraySize: int
    var totalBits: int
    var allocArray: bool

    ghost predicate Valid()
      reads this
    {
      0 <= arraySize <= words.Length && 32 * arraySize <= totalBits <= 0x7FFF_FFFF
    }

    /** Whether bit `bit` is set (bitmap_test_bit as a specification). */
    ghost predicate IsSet(bit: nat)
      reads this, words
      requires bit / 32 < words.Length
    {
      Bit(words[..], bit)
    }

    /** bitmap_create: `array_size` is `total_bits / 32`, truncated, so only
        the bits below `32 * array_size` are ever searched. A given array is
        used as is; without one, a fresh array of `array_size` words whose
        contents are not cleared (kmalloc does not zero memory). */
    constructor (given: array?<bv32>, totalBits: i32)
      requires totalBits >= 0
      requires given != null ==> totalBits / 32 <= given.Length
      ensures Valid()
      ensures this.totalBits == totalBits && arraySize == totalBits / 32
      ensures allocArray == (given == null)
      ensures given != null ==> words == given
      ensures given == null ==> fresh(words) && words.Length == arraySize
    {
      this.totalBits := totalBits;
      arraySize := totalBits / 32;
      if given == null {
        words := new bv32[totalBits / 32];
        allocArray := true;
      } else {
        words := given;
        allocArray := false;
      }
    }

    /** bitmap_set_bit: `array[bit / 32] |= 0x1 << bit % 32`; only that
        word changes, that bit is now set and no other bit changes. */
    method SetBit(bit: u32)
      requires bit / 32 < words.Length
      modifies words
      ensures words[..] == old(words[..])[bit / 32 := words[bit / 32]]
      ensures SetsBit(old(words[bit / 32]), words[bit / 32], Offset(bit))
      ensures forall b: nat :: b / 32 < words.Length ==> IsSet(b) == (b == bit || old(IsSet(b)))
    {
      var v := WithBit(words[bit / 32], Offset(bit));
      SetBitAll(words[..], bit, v);
      words[bit / 32] := v;
    }

    /** bitmap_clear_bit: `array[bit / 32] &= ~(0x1 << bit % 32)`; only
        that word changes, that bit is now clear and no other bit changes. */
    method ClearBit(bit: u32)
      requires bit / 32 < words.Length
      modifies words
      ensures words[..] == old(words[..])[bit / 32 := words[bit / 32]]
      ensures ClearsBit(old(words[bit / 32]), words[bit / 32], Offset(bit))
      ensures forall b: nat :: b / 32 < words.Length ==> IsSet(b) == (b != bit && old(IsSet(b)))
    {
      var v := WithoutBit(words[bit / 32], Offset(bit));
      ClearBitAll(words[..], bit, v);
      words[bit / 32] := v;
    }

    /** bitmap_test_bit. */
    method TestBit(bit: u32) returns (r: bool)
      requires bit / 32 < words.Length
      ensures r == IsSet(bit)
    {
      r := WordBit(words[bit / 32], Offset(bit));
    }

    /** bitmap_find_first_free: scans the first `array_size` words, skipping
        full ones, and inside a word scans from bit 0. The answer is the
        lowest clear bit, or none when every searched bit is set. */
    method FindFirstFree() returns (r: Option<u32>)
      requires Valid()
      ensures r.Some? ==> r.value < 32 * arraySize && !IsSet(r.value)
      ensures r.Some? ==> forall b: nat :: b < r.value ==> IsSet(b)
      ensures r.None? <==> forall b: nat :: b < 32 * arraySize ==> IsSet(b)
    {
      ghost var ws := words[..];
      var i := 0;
      while i < arraySize
        invariant i <= arraySize
        invariant forall b: nat :: b < 32 * i ==> Bit(ws, b)
      {
        var ele := words[i];
        if ele != 0xFFFF_FFFF {
          var j := 0;
          while j < 32
            invariant j <= 32
            invariant forall b: nat :: b < 32 * i + j ==> Bit(ws, b)
          {
            if !WordBit(ele, j as bv5) {
              FoundClear(ws, i, j);
              return Some(i * 32 + j);
            }
            NextBit(ws, i, j);
            j := j + 1;
          }
        } else {
          FullWordSet(ws, i);
        }
        i := i + 1;
      }
      return None;
    }

    /** bitmap_allocate_first_free: the lowest clear bit, now set; on failure
        the bitmap is unchanged. */
    method AllocateFirstFree() returns (r: Option<u32>)
      requires Valid()
      modifies words
      ensures r.Some? ==> r.value < 32 * arraySize && !old(IsSet(r.value))
      ensures r.Some? ==> forall b: nat :: b < r.value ==> old(IsSet(b))
      ensures r.Some? ==> forall b: nat :: b / 32 < words.Length ==> IsSet(b) == (b == r.value || old(IsSet(b)))
      ensures r.None? <==> forall b: nat :: b < 32 * arraySize ==> old(IsSet(b))
      ensures r.None? ==> words[..] == old(words[..])
    {
      ghost var ws := words[..];
      r := FindFirstFree();
      assert words[..] == ws;
      forall b: nat | b / 32 < words.Length
        ensures IsSet(b) == old(IsSet(b))
      {
      }
      if r.None? {
        return;
      }
      SetBit(r.value);
    }
  }
}
