/**
 The CRC engine of shared-headers/CRC.hpp as functions on machine words: the bit-by-bit loops, the
 lookup table and the table-driven loops, with all digits of the C++ type, including the ones above
 the CRC's own width.
 */
module CrcModel {
  import opened Bits

  /** `Parameters<CRCType, CRCWidth>`; `digits` is the number of bits of CRCType. */
  datatype Params = Params(
    digits: nat,
    width: nat,
    polynomial: Word,
    initialValue: Word,
    finalXOR: Word,
    reflectInput: bool,
    reflectOutput: bool)
  {
    /** What the C++ types guarantee: an integer type of at least a byte that holds the CRC. */
    predicate WellTyped() {
      && 8 <= digits && 1 <= width <= digits
      && |polynomial| == |initialValue| == |finalXOR| == digits
    }
  }

  function Reflect(value: Word, numBits: nat): (r: Word)
    requires numBits <= |value|
    ensures |r| == |value| && forall i :: 0 <= i < |value| ==> r[i] == (i < numBits && value[numBits - 1 - i])
  {
    Cast(Rev(value[..numBits]), |value|)
  }

  function Finalize(width: nat, remainder: Word, finalXOR: Word, reflectOutput: bool): (r: Word)
    requires 1 <= width <= |remainder| == |finalXOR|
    ensures |r| == |remainder|
  {
    var x := if reflectOutput then Reflect(remainder, width) else remainder;
    Mask(Xor(x, finalXOR), width)
  }

  function UndoFinalize(width: nat, crc: Word, finalXOR: Word, reflectOutput: bool): (r: Word)
    requires 1 <= width <= |crc| == |finalXOR|
    ensures |r| == |crc|
  {
    var x := Xor(Mask(crc, width), finalXOR);
    if reflectOutput then Reflect(x, width) else x
  }

  // ---------- The bit-by-bit loops ----------

  /** One inner iteration of the reflected branch. */
  function DownRound(x: Word, polynomial: Word): (r: Word)
    requires |x| == |polynomial| >= 1
    ensures |r| == |x|
  {
    if x[0] then Xor(Shr(x, 1), polynomial) else Shr(x, 1)
  }

  function DownRounds(x: Word, polynomial: Word, k: nat): (r: Word)
    requires |x| == |polynomial| >= 1
    ensures |r| == |x|
  {
    if k == 0 then x else DownRound(DownRounds(x, polynomial, k - 1), polynomial)
  }

  function DownRun(x: Word, polynomial: Word, data: seq<Byte>): (r: Word)
    requires |x| == |polynomial| >= 8
    ensures |r| == |x|
  {
    if data == [] then x
    else
      var n := |data| - 1;
      DownRounds(Xor(DownRun(x, polynomial, data[..n]), Cast(data[n], |x|)), polynomial, CHAR_BIT)
  }

  /** One inner iteration of the other two branches, testing bit `top`. */
  function UpRound(x: Word, polynomial: Word, top: nat): (r: Word)
    requires |x| == |polynomial| > top
    ensures |r| == |x|
  {
    if x[top] then Xor(Shl(x, 1), polynomial) else Shl(x, 1)
  }

  function UpRounds(x: Word, polynomial: Word, top: nat, k: nat): (r: Word)
    requires |x| == |polynomial| > top
    ensures |r| == |x|
  {
    if k == 0 then x else UpRound(UpRounds(x, polynomial, top, k - 1), polynomial, top)
  }

  /** The byte enters just below and including bit `top`. */
  function UpRun(x: Word, polynomial: Word, top: nat, data: seq<Byte>): (r: Word)
    requires |x| == |polynomial| > top >= 7
    ensures |r| == |x|
  {
    if data == [] then x
    else
      var n := |data| - 1;
      UpRounds(Xor(UpRun(x, polynomial, top, data[..n]), Shl(Cast(data[n], |x|), top - 7)), polynomial, top, CHAR_BIT)
  }

  /** `CalculateRemainder` with parameters. */
  function BitRemainder(p: Params, data: seq<Byte>, x: Word): (r: Word)
    requires p.WellTyped() && |x| == p.digits
    ensures |r| == p.digits
  {
    if p.reflectInput then DownRun(x, Reflect(p.polynomial, p.width), data)
    else if p.width >= 8 then UpRun(x, p.polynomial, p.width - 1, data)
    else
      var shift := 8 - p.width;
      Shr(UpRun(Shl(x, shift), Shl(p.polynomial, shift), 7, data), shift)
  }

  // ---------- The table and the table-driven loops ----------

  /** A table entry from the remainder of its byte; `masked` says whether the mask whose need the
      source doubts is applied. */
  function EntryOf(p: Params, crc: Word, masked: bool): (r: Word)
    requires p.WellTyped() && |crc| == p.digits
    ensures |r| == p.digits
  {
    var crc' := if masked then Mask(crc, p.width) else crc;
    if !p.reflectInput && p.width < 8 then Shl(crc', 8 - p.width) else crc'
  }

  function TableEntry(p: Params, b: Byte, masked: bool): (r: Word)
    requires p.WellTyped()
    ensures |r| == p.digits
  {
    EntryOf(p, BitRemainder(p, [b], Zero(p.digits)), masked)
  }

  predicate TableTyped(p: Params, table: seq<Word>) {
    |table| == 256 && forall k :: 0 <= k < 256 ==> |table[k]| == p.digits
  }

  /** `1 << CHAR_BIT`. */
  const TABLE_SIZE: nat := 256

  function Tabulate(f: nat -> Word, n: nat): (entries: seq<Word>)
    ensures |entries| == n && forall k {:trigger entries[k]} :: 0 <= k < n ==> entries[k] == f(k)
  {
    seq(n, k requires 0 <= k < n => f(k))
  }

  function EntryAt(p: Params, masked: bool): nat -> Word
    requires p.WellTyped()
  {
    (k: nat) => TableEntry(p, OfNat(k, 8), masked)
  }

  function BuildTable(p: Params, masked: bool): (table: seq<Word>)
    requires p.WellTyped()
    ensures TableTyped(p, table)
  {
    var table := Tabulate(EntryAt(p, masked), TABLE_SIZE);
    assert forall k: nat :: |EntryAt(p, masked)(k)| == p.digits;
    table
  }

  lemma BuildTableAt(p: Params, masked: bool, k: nat)
    requires p.WellTyped() && k < 256
    ensures BuildTable(p, masked)[k] == TableEntry(p, OfNat(k, 8), masked)
  {
    assert BuildTable(p, masked)[k] == EntryAt(p, masked)(k);
  }

  lemma EntryFits(p: Params, crc: Word)
    requires p.WellTyped() && |crc| == p.digits
    ensures var r := EntryOf(p, crc, true);
            if !p.reflectInput && p.width < 8 then Fits(r, 8) && forall i :: 0 <= i < 8 - p.width ==> !r[i]
            else Fits(r, p.width)
  {
  }

  /** No table entry has a bit that is not part of the remainder: none at the width or above, save that
      entries of narrow unreflected codes are kept in the upper bits of the byte. */
  lemma EntriesFit(p: Params, k: nat)
    requires p.WellTyped() && k < 256
    ensures var r := BuildTable(p, true)[k];
            if !p.reflectInput && p.width < 8 then Fits(r, 8) && forall i :: 0 <= i < 8 - p.width ==> !r[i]
            else Fits(r, p.width)
  {
    BuildTableAt(p, true, k);
    EntryFits(p, BitRemainder(p, [OfNat(k, 8)], Zero(p.digits)));
  }

  predicate Probe(k: nat) {
    true
  }

  /** `f` gives the masked entries. The trigger keeps an entry's definition folded where it is not asked
      for by a Probe. */
  ghost predicate Computes(p: Params, f: nat -> Word)
    requires p.WellTyped()
  {
    forall k: nat {:trigger Probe(k)} :: Probe(k) ==> f(k) == TableEntry(p, OfNat(k, 8), true)
  }

  /** The table index `static_cast<unsigned char>(x)`. */
  function Index(x: Word): (k: nat)
    ensures k < 256
    ensures OfNat(k, 8) == Cast(x, 8)
  {
    ValueBound(Cast(x, 8));
    OfNatValue(Cast(x, 8));
    assert Pow2(8) == 256 by { assert Pow2(4) == 16; }
    Value(Cast(x, 8))
  }

  function DownLookup(table: seq<Word>, x: Word, b: Byte): (r: Word)
    requires |table| == 256 && forall k :: 0 <= k < 256 ==> |table[k]| == |x|
    ensures |r| == |x|
  {
    Xor(Shr(x, 8), table[Index(Xor(x, Cast(b, |x|)))])
  }

  function UpLookup(table: seq<Word>, width: nat, x: Word, b: Byte): (r: Word)
    requires |table| == 256 && forall k :: 0 <= k < 256 ==> |table[k]| == |x|
    requires width >= 8
    ensures |r| == |x|
  {
    Xor(Shl(x, 8), table[Index(Xor(Shr(x, width - 8), Cast(b, |x|)))])
  }

  function NarrowLookup(table: seq<Word>, x: Word, b: Byte): (r: Word)
    requires |table| == 256 && forall k :: 0 <= k < 256 ==> |table[k]| == |x|
    ensures |r| == |x|
  {
    table[Index(Xor(x, Cast(b, |x|)))]
  }

  /** One byte of the table loop. */
  function LookupStep(p: Params, table: seq<Word>, x: Word, b: Byte): (r: Word)
    requires p.WellTyped() && TableTyped(p, table) && |x| == p.digits
    ensures |r| == p.digits
  {
    if p.reflectInput then DownLookup(table, x, b)
    else if p.width >= 8 then UpLookup(table, p.width, x, b)
    else NarrowLookup(table, x, b)
  }

  function LookupRun(p: Params, table: seq<Word>, data: seq<Byte>, x: Word): (r: Word)
    requires p.WellTyped() && TableTyped(p, table) && |x| == p.digits
    ensures |r| == p.digits
  {
    if data == [] then x
    else LookupStep(p, table, LookupRun(p, table, data[..|data| - 1], x), data[|data| - 1])
  }

  lemma LookupRunPrefix(p: Params, table: seq<Word>, data: seq<Byte>, x: Word, k: nat)
    requires p.WellTyped() && TableTyped(p, table) && |x| == p.digits && k < |data|
    ensures LookupRun(p, table, data[..k + 1], x) == LookupStep(p, table, LookupRun(p, table, data[..k], x), data[k])
  {
    assert data[..k + 1][..k] == data[..k];
  }

  /** `CalculateRemainder` with a lookup table. */
  function TableRemainder(p: Params, table: seq<Word>, data: seq<Byte>, x: Word): (r: Word)
    requires p.WellTyped() && TableTyped(p, table) && |x| == p.digits
    ensures |r| == p.digits
  {
    if !p.reflectInput && p.width < 8 then
      var shift := 8 - p.width;
      Shr(LookupRun(p, table, data, Shl(x, shift)), shift)
    else LookupRun(p, table, data, x)
  }

  // ---------- The four `Calculate` overloads ----------

  function Finish(p: Params, remainder: Word): (r: Word)
    requires p.WellTyped() && |remainder| == p.digits
    ensures |r| == p.digits
  {
    Finalize(p.width, remainder, p.finalXOR, p.reflectInput != p.reflectOutput)
  }

  function Resume(p: Params, crc: Word): (r: Word)
    requires p.WellTyped() && |crc| == p.digits
    ensures |r| == p.digits
  {
    UndoFinalize(p.width, crc, p.finalXOR, p.reflectInput != p.reflectOutput)
  }

  function Calculate(p: Params, data: seq<Byte>): (r: Word)
    requires p.WellTyped()
    ensures |r| == p.digits
  {
    Finish(p, BitRemainder(p, data, p.initialValue))
  }

  function CalculateMore(p: Params, data: seq<Byte>, crc: Word): (r: Word)
    requires p.WellTyped() && |crc| == p.digits
    ensures |r| == p.digits
  {
    Finish(p, BitRemainder(p, data, Resume(p, crc)))
  }

  function CalculateByTable(p: Params, table: seq<Word>, data: seq<Byte>): (r: Word)
    requires p.WellTyped() && TableTyped(p, table)
    ensures |r| == p.digits
  {
    Finish(p, TableRemainder(p, table, data, p.initialValue))
  }

  function CalculateMoreByTable(p: Params, table: seq<Word>, data: seq<Byte>, crc: Word): (r: Word)
    requires p.WellTyped() && TableTyped(p, table) && |crc| == p.digits
    ensures |r| == p.digits
  {
    Finish(p, TableRemainder(p, table, data, Resume(p, crc)))
  }
}
