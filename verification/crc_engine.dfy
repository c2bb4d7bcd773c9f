/**
 The engine itself, loop by loop: `Reflect`, `Finalize`, `UndoFinalize`, both `CalculateRemainder`
 overloads, the `Table` class and the four `Calculate` overloads.
 */
module CrcEngine {
  import opened Bits
  import opened Lfsr
  import M = CrcModel
  import Meaning = CrcMeaning
  import Wide = CrcWide

  type Params = M.Params

  method Reflect(value: Word, numBits: nat) returns (reversedValue: Word)
    requires numBits <= |value|
    ensures reversedValue == M.Reflect(value, numBits)
  {
    var v := value;
    reversedValue := Zero(|value|);
    for i := 0 to numBits
      invariant v == Shr(value, i)
      invariant |reversedValue| == |value|
      invariant forall j :: 0 <= j < |value| ==> reversedValue[j] == (j < i && value[i - 1 - j])
    {
      ghost var before := reversedValue;
      reversedValue := Or(Shl(reversedValue, 1), Mask(v, 1));
      assert forall j :: 0 <= j < |value| ==> reversedValue[j] == if j == 0 then v[0] else before[j - 1];
      v := Shr(v, 1);
      assert v == Shr(value, i + 1);
    }
  }

  method Finalize(width: nat, remainder: Word, finalXOR: Word, reflectOutput: bool) returns (crc: Word)
    requires 1 <= width <= |remainder| == |finalXOR|
    ensures crc == M.Finalize(width, remainder, finalXOR, reflectOutput)
  {
    var x := remainder;
    if reflectOutput {
      x := Reflect(x, width);
    }
    crc := Mask(Xor(x, finalXOR), width);
  }

  method UndoFinalize(width: nat, crc: Word, finalXOR: Word, reflectOutput: bool) returns (remainder: Word)
    requires 1 <= width <= |crc| == |finalXOR|
    ensures remainder == M.UndoFinalize(width, crc, finalXOR, reflectOutput)
  {
    remainder := Xor(Mask(crc, width), finalXOR);
    if reflectOutput {
      remainder := Reflect(remainder, width);
    }
  }

  /** The reflected loop: shift down, low bit decides. */
  method ReflectedLoop(p: Params, data: seq<Byte>, start: Word) returns (remainder: Word)
    requires p.WellTyped() && p.reflectInput && |start| == p.digits
    ensures remainder == M.BitRemainder(p, data, start)
  {
    var polynomial := Reflect(p.polynomial, p.width);
    remainder := start;
    for current := 0 to |data|
      invariant |remainder| == p.digits && remainder == M.DownRun(start, polynomial, data[..current])
    {
      remainder := Xor(remainder, Cast(data[current], p.digits));
      ghost var entered := remainder;
      for i := 0 to CHAR_BIT
        invariant |remainder| == p.digits && remainder == M.DownRounds(entered, polynomial, i)
      {
        remainder := if remainder[0] then Xor(Shr(remainder, 1), polynomial) else Shr(remainder, 1);
      }
      assert data[..current + 1][..current] == data[..current];
    }
    assert data[..|data|] == data;
  }

  /** The loop of the other two branches: shift up, bit `top` decides, bytes enter below it. */
  method ShiftUpLoop(digits: nat, top: nat, polynomial: Word, data: seq<Byte>, start: Word) returns (remainder: Word)
    requires |start| == |polynomial| == digits > top >= 7
    ensures remainder == M.UpRun(start, polynomial, top, data)
  {
    remainder := start;
    for current := 0 to |data|
      invariant |remainder| == digits && remainder == M.UpRun(start, polynomial, top, data[..current])
    {
      remainder := Xor(remainder, Shl(Cast(data[current], digits), top - 7));
      ghost var entered := remainder;
      for i := 0 to CHAR_BIT
        invariant |remainder| == digits && remainder == M.UpRounds(entered, polynomial, top, i)
      {
        remainder := if remainder[top] then Xor(Shl(remainder, 1), polynomial) else Shl(remainder, 1);
      }
      assert data[..current + 1][..current] == data[..current];
    }
    assert data[..|data|] == data;
  }

  method CalculateRemainder(p: Params, data: seq<Byte>, start: Word) returns (remainder: Word)
    requires p.WellTyped() && |start| == p.digits
    ensures remainder == M.BitRemainder(p, data, start)
    ensures Meaning.Clean(p, start) ==>
              Meaning.Register(p, remainder)
              == Feed(Meaning.Gen(p), Meaning.Register(p, start), Meaning.Stream(p.reflectInput, data))
  {
    if p.reflectInput {
      remainder := ReflectedLoop(p, data, start);
    } else if p.width >= 8 {
      remainder := ShiftUpLoop(p.digits, p.width - 1, p.polynomial, data, start);
    } else {
      var shift := 8 - p.width;
      remainder := ShiftUpLoop(p.digits, 7, Shl(p.polynomial, shift), data, Shl(start, shift));
      remainder := Shr(remainder, shift);
    }
    if Meaning.Clean(p, start) { Meaning.BitRemainderMeaning(p, data, start); }
  }

  method Calculate(p: Params, data: seq<Byte>) returns (crc: Word)
    requires p.WellTyped()
    ensures crc == M.Calculate(p, data)
  {
    var remainder := CalculateRemainder(p, data, p.initialValue);
    crc := Finalize(p.width, remainder, p.finalXOR, p.reflectInput != p.reflectOutput);
  }

  method CalculateMore(p: Params, data: seq<Byte>, previous: Word) returns (crc: Word)
    requires p.WellTyped() && |previous| == p.digits
    ensures crc == M.CalculateMore(p, data, previous)
  {
    var remainder := UndoFinalize(p.width, previous, p.finalXOR, p.reflectInput != p.reflectOutput);
    remainder := CalculateRemainder(p, data, remainder);
    crc := Finalize(p.width, remainder, p.finalXOR, p.reflectInput != p.reflectOutput);
  }

  /** `Table`: the parameters and the 256 entries that `InitTable` fills in place. */
  class Table {
    const parameters: Params
    const table: array<Word>

    /** All that the lookups themselves need. */
    ghost predicate Usable()
      reads this, table
    {
      parameters.WellTyped() && M.TableTyped(parameters, table[..])
    }

    ghost predicate Valid()
      reads this, table
      ensures Valid() ==> Usable()
    {
      parameters.WellTyped() && table[..] == M.BuildTable(parameters, true)
    }

    constructor (params: Params)
      requires params.WellTyped()
      ensures Valid() && parameters == params && fresh(table)
    {
      parameters := params;
      table := new Word[256](i => []);
      new;
      InitTable();
    }

    /** The loop body of `InitTable`. */
    method Entry(byte: nat, ghost f: nat -> Word) returns (crc: Word)
      requires parameters.WellTyped() && M.Computes(parameters, f)
      ensures crc == f(byte)
    {
      var p := parameters;
      crc := CalculateRemainder(p, [OfNat(byte, 8)], Zero(p.digits));
      crc := Mask(crc, p.width);
      if !p.reflectInput && p.width < 8 {
        crc := Shl(crc, 8 - p.width);
      }
      assert M.Probe(byte);
    }

    /** The byte counter wraps to zero after the last entry, which ends the loop. */
    method Fill(ghost f: nat -> Word)
      requires parameters.WellTyped() && table.Length == M.TABLE_SIZE && M.Computes(parameters, f)
      modifies table
      ensures table[..] == M.Tabulate(f, M.TABLE_SIZE)
    {
      var byte, more := 0, true;
      while more
        invariant 0 <= byte < 256
        invariant forall k :: 0 <= k < (if more then byte else 256) ==> table[k] == f(k)
        decreases if more then 256 - byte else 0
      {
        table[byte] := Entry(byte, f);
        byte := (byte + 1) % 256;
        more := byte != 0;
      }
    }

    method InitTable()
      requires parameters.WellTyped() && table.Length == M.TABLE_SIZE
      modifies table
      ensures Valid()
    {
      Fill(M.EntryAt(parameters, true));
    }

    method Lookup(x: Word, b: Byte) returns (r: Word)
      requires Usable() && |x| == parameters.digits
      ensures r == M.LookupStep(parameters, table[..], x, b)
    {
      var p := parameters;
      if p.reflectInput {
        r := Xor(Shr(x, 8), table[M.Index(Xor(x, Cast(b, p.digits)))]);
      } else if p.width >= 8 {
        r := Xor(Shl(x, 8), table[M.Index(Xor(Shr(x, p.width - 8), Cast(b, p.digits)))]);
      } else {
        r := table[M.Index(Xor(x, Cast(b, p.digits)))];
      }
    }

    method LookupLoop(data: seq<Byte>, start: Word) returns (remainder: Word)
      requires Usable() && |start| == parameters.digits
      ensures remainder == M.LookupRun(parameters, table[..], data, start)
    {
      remainder := start;
      ghost var entries := table[..];
      for current := 0 to |data|
        invariant |remainder| == parameters.digits
        invariant remainder == M.LookupRun(parameters, entries, data[..current], start)
      {
        M.LookupRunPrefix(parameters, entries, data, start, current);
        remainder := Lookup(remainder, data[current]);
      }
      assert data[..|data|] == data;
    }

    method CalculateRemainderByTable(data: seq<Byte>, start: Word) returns (remainder: Word)
      requires Usable() && |start| == parameters.digits
      ensures remainder == M.TableRemainder(parameters, table[..], data, start)
    {
      if !parameters.reflectInput && parameters.width < 8 {
        remainder := LookupLoop(data, Shl(start, 8 - parameters.width));
        remainder := Shr(remainder, 8 - parameters.width);
      } else {
        remainder := LookupLoop(data, start);
      }
    }

    /** The fast form returns the CRC of the simple form. */
    method Calculate(data: seq<Byte>) returns (crc: Word)
      requires Valid()
      ensures crc == M.CalculateByTable(parameters, table[..], data)
      ensures crc == M.Calculate(parameters, data)
    {
      var p := parameters;
      var remainder := CalculateRemainderByTable(data, p.initialValue);
      crc := Finalize(p.width, remainder, p.finalXOR, p.reflectInput != p.reflectOutput);
      Wide.FormsAgree(p, true, data, p.initialValue);
    }

    method CalculateMore(data: seq<Byte>, previous: Word) returns (crc: Word)
      requires Valid() && |previous| == parameters.digits
      ensures crc == M.CalculateMoreByTable(parameters, table[..], data, previous)
      ensures crc == M.CalculateMore(parameters, data, previous)
    {
      var p := parameters;
      var remainder := UndoFinalize(p.width, previous, p.finalXOR, p.reflectInput != p.reflectOutput);
      remainder := CalculateRemainderByTable(data, remainder);
      crc := Finalize(p.width, remainder, p.finalXOR, p.reflectInput != p.reflectOutput);
      Wide.FormsAgree(p, true, data, previous);
    }
  }
}
