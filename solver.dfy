/**
  The computation of solver.js once its input record has been read: every
  root entry other than `keys` is decoded in its own base and collected in
  order, and the constant term is k * (-1)^n * (product of the roots). Any
  decoding failure aborts the whole computation.
 */
module Solver {
  import opened Decoder
  import Vieta

  /** One root entry: its base and its digit string. */
  datatype RootEntry = RootEntry(base: int, value: string)

  /** The input record: the root count n and leading coefficient k of the
      `keys` entry, and the root entries in enumeration order. */
  datatype Input = Input(n: int, k: int, roots: seq<RootEntry>)

  /** Decoding every entry, first to last; the first failure is the result.
      On success there is one value per entry, the decoding of that entry. */
  function DecodeAll(entries: seq<RootEntry>): (r: Result<seq<int>>)
    ensures r.Ok? ==> |r.value| == |entries|
    ensures r.Ok? ==> forall i :: 0 <= i < |entries| ==>
      Decode(entries[i].value, entries[i].base) == Ok(r.value[i])
  {
    if entries == [] then Ok([])
    else
      var last := entries[|entries| - 1];
      match DecodeAll(entries[..|entries| - 1])
      case Err(e) => Err(e)
      case Ok(roots) =>
        match Decode(last.value, last.base)
        case Err(e) => Err(e)
        case Ok(v) => Ok(roots + [v])
  }

  /** The whole computation: the constant term, or the first decoding error. */
  function Solve(input: Input): Result<int>
  {
    match DecodeAll(input.roots)
    case Err(e) => Err(e)
    case Ok(roots) => Ok(Vieta.ConstantTerm(input.n, input.k, roots))
  }

  /** The collection loop of the source: each entry is decoded and pushed
      onto the list of roots; a decoding error stops it. */
  method CollectRoots(entries: seq<RootEntry>) returns (r: Result<seq<int>>)
    ensures r == DecodeAll(entries)
  {
    var roots: seq<int> := [];
    var i := 0;
    while i < |entries|
      invariant 0 <= i <= |entries|
      invariant DecodeAll(entries[..i]) == Ok(roots)
    {
      var entry := entries[i];
      assert entries[..i + 1][..i] == entries[..i];
      var decoded := ConvertToBigInt(entry.value, entry.base);
      if decoded.Err? {
        DecodeAllPrefixError(entries, i + 1);
        return Err(decoded.error);
      }
      roots := roots + [decoded.value];
      i := i + 1;
    }
    assert entries[..i] == entries;
    r := Ok(roots);
  }

  /** The source's main computation: collect the roots, multiply them,
      choose the sign and scale by k. */
  method Run(input: Input) returns (r: Result<int>)
    ensures r == Solve(input)
  {
    var collected := CollectRoots(input.roots);
    if collected.Err? {
      return Err(collected.error);
    }
    var product := Vieta.Product(collected.value);
    var sign := Vieta.Sign(input.n);
    r := Ok(input.k * sign * product);
  }

  // ---------------------------------------------------------------------
  // Lemmas

  /** Once a prefix of the entries fails, everything fails with that error. */
  lemma {:induction false} DecodeAllPrefixError(entries: seq<RootEntry>, i: nat)
    requires i <= |entries|
    requires DecodeAll(entries[..i]).Err?
    ensures DecodeAll(entries) == DecodeAll(entries[..i])
  {
    if i < |entries| {
      var p := entries[..|entries| - 1];
      assert p[..i] == entries[..i];
      DecodeAllPrefixError(p, i);
    } else {
      assert entries[..i] == entries;
    }
  }

  /** Collecting succeeds exactly when every entry decodes. */
  lemma {:induction false} DecodeAllOkIff(entries: seq<RootEntry>)
    ensures DecodeAll(entries).Ok? <==>
      forall i :: 0 <= i < |entries| ==> Decode(entries[i].value, entries[i].base).Ok?
  {
    if entries != [] {
      var p := entries[..|entries| - 1];
      DecodeAllOkIff(p);
      assert forall i :: 0 <= i < |p| ==> p[i] == entries[i];
    }
  }

  /** On failure, the error is that of the first entry that does not decode. */
  lemma {:induction false} DecodeAllFirstError(entries: seq<RootEntry>, i: nat)
    requires i < |entries|
    requires forall j :: 0 <= j < i ==> Decode(entries[j].value, entries[j].base).Ok?
    requires Decode(entries[i].value, entries[i].base).Err?
    ensures DecodeAll(entries) == Err(Decode(entries[i].value, entries[i].base).error)
  {
    var q := entries[..i + 1];
    DecodeAllOkIff(entries[..i]);
    assert q[..i] == entries[..i];
    assert forall j :: 0 <= j < i ==> entries[..i][j] == entries[j];
    DecodeAllPrefixError(entries, i + 1);
  }

  /** The computation succeeds exactly when every digit of every root is a
      legal digit of its base; its result is then k * (-1)^n times the
      product of the roots' positional values. */
  lemma SolveCorrect(input: Input)
    ensures Solve(input).Ok? <==>
      forall i :: 0 <= i < |input.roots| ==> ValidFor(input.roots[i].value, input.roots[i].base)
    ensures Solve(input).Ok? ==> exists roots: seq<int> ::
      && |roots| == |input.roots|
      && (forall i :: 0 <= i < |roots| ==>
            roots[i] == Value(Weights(input.roots[i].value), input.roots[i].base))
      && Solve(input) == Ok(Vieta.ConstantTerm(input.n, input.k, roots))
  {
    var es := input.roots;
    DecodeAllOkIff(es);
    forall i | 0 <= i < |es| {
      DecodeCorrect(es[i].value, es[i].base);
    }
    if Solve(input).Ok? {
      var roots := DecodeAll(es).value;
      assert forall i :: 0 <= i < |roots| ==>
        roots[i] == Value(Weights(es[i].value), es[i].base);
    }
  }

  /** The decoded value of an entry, 0 for one that does not decode. */
  function RootValue(e: RootEntry): int
  {
    match Decode(e.value, e.base)
    case Ok(v) => v
    case Err(_) => 0
  }

  /** The decoded values of the entries; an entry that decodes has its value
      at its own position. */
  function RootValues(entries: seq<RootEntry>): (roots: seq<int>)
    ensures |roots| == |entries|
    ensures forall i :: 0 <= i < |entries| && Decode(entries[i].value, entries[i].base).Ok? ==>
      Decode(entries[i].value, entries[i].base) == Ok(roots[i])
  {
    seq(|entries|, i requires 0 <= i < |entries| => RootValue(entries[i]))
  }

  /** Reordering the root entries does not change a successful result. */
  lemma SolveOrderIndependent(input: Input, entries: seq<RootEntry>)
    requires multiset(entries) == multiset(input.roots)
    requires Solve(input).Ok?
    ensures Solve(input.(roots := entries)) == Solve(input)
  {
    var a, b := input.roots, entries;
    DecodeAllOkIff(a);
    DecodeAllOkIff(b);
    forall i | 0 <= i < |b|
      ensures Decode(b[i].value, b[i].base).Ok?
    {
      assert b[i] in multiset(a);
      var j :| 0 <= j < |a| && a[j] == b[i];
    }
    assert DecodeAll(a).value == RootValues(a);
    assert DecodeAll(b).value == RootValues(b);
    RootValuesPermutation(a, b);
    Vieta.ConstantTermOrderIndependent(input.n, input.k, RootValues(a), RootValues(b));
  }

  /** Decoding two reorderings of the same entries gives two reorderings of
      the same values. */
  lemma {:induction false} RootValuesPermutation(a: seq<RootEntry>, b: seq<RootEntry>)
    requires multiset(a) == multiset(b)
    ensures multiset(RootValues(a)) == multiset(RootValues(b))
    decreases |a|
  {
    if a == [] {
      assert |multiset(b)| == 0;
    } else {
      var a' := a[..|a| - 1];
      var x := a[|a| - 1];
      assert a == a' + [x];
      assert x in multiset(b);
      var j :| 0 <= j < |b| && b[j] == x;
      var b' := b[..j] + b[j + 1..];
      Vieta.MultisetRemove(a', x, b, j);
      RootValuesPermutation(a', b');
      RootValuesRemove(b, j);
      var ra, rb := RootValues(a), RootValues(b);
      assert ra == RootValues(a') + [RootValue(x)];
      assert rb[j] == RootValue(x);
      Vieta.MultisetInsert(RootValues(a'), RootValue(x), rb, j);
    }
  }

  /** Taking one entry out takes its value out of the decoded values. */
  lemma RootValuesRemove(es: seq<RootEntry>, j: nat)
    requires j < |es|
    ensures RootValues(es[..j] + es[j + 1..]) == RootValues(es)[..j] + RootValues(es)[j + 1..]
  {
    var rest := es[..j] + es[j + 1..];
    assert forall i :: 0 <= i < |rest| ==> rest[i] == es[if i < j then i else i + 1];
  }

  // ---------------------------------------------------------------------
  // Worked examples

  /** Two roots, 4 in base 10 and 11 in base 2: the product is 12, the sign
      for n = 2 is +1 and the constant term with k = 1 is 12. */
  lemma ExampleTwoRoots()
    ensures Solve(Input(2, 1, [RootEntry(10, "4"), RootEntry(2, "11")])) == Ok(12)
  {
    TwoRootsDecoded();
    assert Vieta.Product([4, 3]) == 12 by {
      assert [4, 3][..1] == [4] && [4][..0] == [];
    }
  }

  lemma TwoRootsDecoded()
    ensures DecodeAll([RootEntry(10, "4"), RootEntry(2, "11")]) == Ok([4, 3])
  {
    assert Decode("4", 10) == Ok(4);
    assert Decode("11", 2) == Ok(3) by {
      DigitString("1", '1', 2);
    }
    DecodeAllPair(RootEntry(10, "4"), RootEntry(2, "11"), 4, 3);
  }

  /** Decoding two entries that each decode. */
  lemma DecodeAllPair(e0: RootEntry, e1: RootEntry, v0: int, v1: int)
    requires Decode(e0.value, e0.base) == Ok(v0)
    requires Decode(e1.value, e1.base) == Ok(v1)
    ensures DecodeAll([e0, e1]) == Ok([v0, v1])
  {
    assert DecodeAll([]) == Ok([]);
    DecodeAllSnoc([], e0, v0);
    assert [] + [e0] == [e0] && [] + [v0] == [v0];
    DecodeAllSnoc([e0], e1, v1);
    assert [e0] + [e1] == [e0, e1] && [v0] + [v1] == [v0, v1];
  }

  /** Three roots, a in base 16, 10 in base 8 and 1 in base 10: the product
      is 80, the sign for n = 3 is -1 and the constant term with k = 2 is -160. */
  lemma ExampleThreeRoots()
    ensures Solve(Input(3, 2, [RootEntry(16, "a"), RootEntry(8, "10"), RootEntry(10, "1")])) == Ok(-160)
  {
    ThreeRootsDecoded();
    assert Vieta.Product([10, 8, 1]) == 80 by {
      assert [10, 8, 1][..2] == [10, 8] && [10, 8][..1] == [10] && [10][..0] == [];
    }
  }

  lemma ThreeRootsDecoded()
    ensures DecodeAll([RootEntry(16, "a"), RootEntry(8, "10"), RootEntry(10, "1")]) == Ok([10, 8, 1])
  {
    assert Decode("a", 16) == Ok(10);
    assert Decode("10", 8) == Ok(8) by {
      DigitString("1", '0', 8);
    }
    assert Decode("1", 10) == Ok(1);
    DecodeAllTriple(RootEntry(16, "a"), RootEntry(8, "10"), RootEntry(10, "1"), 10, 8, 1);
  }

  /** Decoding three entries that each decode. */
  lemma DecodeAllTriple(e0: RootEntry, e1: RootEntry, e2: RootEntry, v0: int, v1: int, v2: int)
    requires Decode(e0.value, e0.base) == Ok(v0)
    requires Decode(e1.value, e1.base) == Ok(v1)
    requires Decode(e2.value, e2.base) == Ok(v2)
    ensures DecodeAll([e0, e1, e2]) == Ok([v0, v1, v2])
  {
    DecodeAllPair(e0, e1, v0, v1);
    DecodeAllSnoc([e0, e1], e2, v2);
    assert [e0, e1] + [e2] == [e0, e1, e2] && [v0, v1] + [v2] == [v0, v1, v2];
  }

  /** Decoding one more entry appends its value to the decoded roots. */
  lemma DecodeAllSnoc(entries: seq<RootEntry>, e: RootEntry, v: int)
    requires DecodeAll(entries).Ok?
    requires Decode(e.value, e.base) == Ok(v)
    ensures DecodeAll(entries + [e]) == Ok(DecodeAll(entries).value + [v])
  {
    assert (entries + [e])[..|entries|] == entries;
  }

  /** A digit that is not below its base aborts the computation. */
  lemma ExampleInvalidDigit()
    ensures Solve(Input(1, 1, [RootEntry(10, "g")])) == Err(InvalidDigit('g', 10))
  {
    assert Decode("g", 10) == Err(InvalidDigit('g', 10));
  }
}
