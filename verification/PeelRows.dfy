// The columns of a Wirehair row: its peel columns and its three mixing columns.
module PeelRows {
  import opened Collections
  import opened Weyl

  datatype PeelRowParameters = PeelRowParameters(PeelCount: nat, PeelFirst: nat, PeelAdd: nat, MixFirst: nat, MixAdd: nat)

  // What the iterators ask of the parameters.
  ghost predicate Suit(params: PeelRowParameters, b: nat, p: nat, mixB: nat, mixP: nat) {
    && Walks(b, p, params.PeelAdd) && IsPrime(p) && params.PeelFirst < b && 1 <= params.PeelCount <= b / 2
    && Walks(mixB, mixP, params.MixAdd) && IsPrime(mixP) && params.MixFirst < mixB
  }

  // The weight and the two random words come from the row's generator.
  function Initialize(weight: nat, rvPeel: nat, rvMix: nat, peelColumns: nat, mixColumns: nat): (params: PeelRowParameters)
    requires weight >= 1 && rvPeel < 0x1_0000_0000 && rvMix < 0x1_0000_0000
    requires 2 <= peelColumns < 0x1_0000 && 2 <= mixColumns < 0x1_0000
    ensures forall p, mixP :: peelColumns <= p < 0x1_0000 && IsPrime(p) && mixColumns <= mixP < 0x1_0000 && IsPrime(mixP) ==>
              Suit(params, peelColumns, p, mixColumns, mixP)
    ensures params.PeelCount <= weight && (params.PeelCount < weight ==> params.PeelCount == peelColumns / 2)
  {
    var max := peelColumns / 2;
    PeelRowParameters(
      if weight > max then max else weight,
      rvPeel / 0x1_0000 % peelColumns,
      rvPeel % 0x1_0000 % (peelColumns - 1) + 1,
      rvMix / 0x1_0000 % mixColumns,
      rvMix % 0x1_0000 % (mixColumns - 1) + 1)
  }

  // Every walk through the columns is some generator's.
  lemma EveryWalk(weight: nat, first: nat, add: nat, mixFirst: nat, mixAdd: nat, peelColumns: nat, mixColumns: nat)
    requires weight >= 1 && first < peelColumns < 0x1_0000 && 0 < add < peelColumns
    requires mixFirst < mixColumns < 0x1_0000 && 0 < mixAdd < mixColumns && peelColumns > 1 && mixColumns > 1
    ensures var params := Initialize(weight, first * 0x1_0000 + add - 1, mixFirst * 0x1_0000 + mixAdd - 1, peelColumns, mixColumns);
            params.PeelFirst == first && params.PeelAdd == add && params.MixFirst == mixFirst && params.MixAdd == mixAdd
  {
    hide Suit;
    Chooses(first, add, peelColumns);
    Chooses(mixFirst, mixAdd, mixColumns);
  }

  lemma Chooses(first: nat, add: nat, n: nat)
    requires first < n < 0x1_0000 && 0 < add < n
    ensures var rv := first * 0x1_0000 + add - 1;
            rv < 0x1_0000_0000 && rv / 0x1_0000 % n == first && rv % 0x1_0000 % (n - 1) + 1 == add
  {
    Halves(first, add - 1);
    Rest(first, n);
    Rest(add - 1, n - 1);
  }

  lemma Rest(a: nat, n: nat)
    requires a < n
    ensures a % n == a
  {}

  lemma Halves(high: nat, low: nat)
    requires low < 0x1_0000
    ensures (high * 0x1_0000 + low) / 0x1_0000 == high && (high * 0x1_0000 + low) % 0x1_0000 == low
  {}

  // All peel columns of a row.
  ghost function PeelColumns(params: PeelRowParameters, b: nat, p: nat): seq<nat>
    requires Walks(b, p, params.PeelAdd) && params.PeelFirst < b
  {
    Outputs(params.PeelFirst, b, p, params.PeelAdd, params.PeelCount)
  }

  lemma PeelColumnsDistinct(params: PeelRowParameters, b: nat, p: nat, mixB: nat, mixP: nat)
    requires Suit(params, b, p, mixB, mixP)
    ensures Distinct(PeelColumns(params, b, p)) && forall c :: c in PeelColumns(params, b, p) ==> c < b
  {
    OutputsDistinct(params.PeelFirst, b, p, params.PeelAdd, params.PeelCount);
  }

  class PeelRowIterator {
    var ColumnsRemaining: nat
    var NextColumn: nat
    const Adder: nat
    const ColumnCount: nat
    const ColumnCountNextPrime: nat
    ghost const First: nat
    ghost var Given: nat    // how many columns were output

    ghost predicate Valid()
      reads this
    {
      && Walks(ColumnCount, ColumnCountNextPrime, Adder) && First < ColumnCount && Given >= 1
      && NextColumn == Outputs(First, ColumnCount, ColumnCountNextPrime, Adder, Given)[Given - 1]
    }

    // The columns output so far and those to come.
    ghost function Columns(): (s: seq<nat>)
      requires Valid()
      reads this
    {
      Outputs(First, ColumnCount, ColumnCountNextPrime, Adder, Given + ColumnsRemaining)
    }

    constructor (params: PeelRowParameters, columnCount: nat, columnCountNextPrime: nat)
      requires Walks(columnCount, columnCountNextPrime, params.PeelAdd) && params.PeelFirst < columnCount && params.PeelCount > 0
      ensures Valid() && Columns() == PeelColumns(params, columnCount, columnCountNextPrime)
      ensures Given == 1 && ColumnsRemaining == params.PeelCount - 1
    {
      NextColumn, First := params.PeelFirst, params.PeelFirst;
      ColumnsRemaining := params.PeelCount - 1;
      Adder, ColumnCount, ColumnCountNextPrime := params.PeelAdd, columnCount, columnCountNextPrime;
      Given := 1;
    }

    function GetColumn(): (c: nat)
      requires Valid()
      reads this
      ensures |Columns()| >= Given && c == Columns()[Given - 1]
    {
      OutputsPrefix(First, ColumnCount, ColumnCountNextPrime, Adder, Given, Given + ColumnsRemaining);
      NextColumn
    }

    // Steps to the next column of the row; false if there is none.
    method Iterate() returns (more: bool)
      requires Valid()
      modifies this
      ensures Valid() && Columns() == old(Columns())
      ensures more == (old(Given) < |Columns()|) && Given == old(Given) + (if more then 1 else 0)
    {
      if ColumnsRemaining <= 0 {
        return false;
      }
      ColumnsRemaining := ColumnsRemaining - 1;
      OutputsSnoc(First, ColumnCount, ColumnCountNextPrime, Adder, Given);
      NextColumn := IterateNextColumn(NextColumn, ColumnCount, ColumnCountNextPrime, Adder);
      Given := Given + 1;
      return true;
    }
  }

  const MIX_COLUMNS := 3

  class RowMixIterator {
    const Columns: array<nat>

    // Three different columns, as long as there are that many.
    constructor (params: PeelRowParameters, columnCount: nat, columnCountNextPrime: nat)
      requires Walks(columnCount, columnCountNextPrime, params.MixAdd) && IsPrime(columnCountNextPrime) && params.MixFirst < columnCount
      ensures fresh(Columns) && Columns[..] == Outputs(params.MixFirst, columnCount, columnCountNextPrime, params.MixAdd, MIX_COLUMNS)
      ensures Distinct(Columns[..]) <==> columnCount >= 3
    {
      Columns := new nat[MIX_COLUMNS];
      new;
      var x := params.MixFirst;
      Columns[0] := x;
      var i := 1;
      while i < MIX_COLUMNS
        invariant 1 <= i <= MIX_COLUMNS && x < columnCount && x == Columns[i - 1]
        invariant Columns[..i] == Outputs(params.MixFirst, columnCount, columnCountNextPrime, params.MixAdd, i)
      {
        OutputsSnoc(params.MixFirst, columnCount, columnCountNextPrime, params.MixAdd, i);
        x := IterateNextColumn(x, columnCount, columnCountNextPrime, params.MixAdd);
        Columns[i] := x;
        i := i + 1;
      }
      assert Columns[..] == Columns[..3];
      MixDistinct(params.MixFirst, columnCount, columnCountNextPrime, params.MixAdd);
    }
  }

  lemma MixDistinct(x: nat, b: nat, p: nat, a: nat)
    requires Walks(b, p, a) && IsPrime(p) && x < b
    ensures Distinct(Outputs(x, b, p, a, MIX_COLUMNS)) <==> b >= 3
  {
    if b >= 3 {
      OutputsDistinct(x, b, p, a, MIX_COLUMNS);
    } else {
      var s := Outputs(x, b, p, a, MIX_COLUMNS);
      assert s[0] < 2 && s[1] < 2 && s[2] < 2;
      assert s[0] == s[1] || s[0] == s[2] || s[1] == s[2];
    }
  }
}
