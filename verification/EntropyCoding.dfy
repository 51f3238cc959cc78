/** Entropy coding of quantised blocks, ITU-T T.81 section F.1.2 (encoding) and
    F.2.2 (decoding), over plain bit strings; decoding inverts encoding. */
module EntropyCoding {
  import opened Options
  import opened Bits
  import opened HuffmanCodes
  import opened Huffman

  datatype Decoded<+T> = Fail | Ok(value: T, rest: seq<bool>)

  /** A Huffman table as it stands in the file. */
  datatype CodeTable = CodeTable(sizes: seq<nat>, values: seq<byte>) {
    ghost predicate Valid() {
      && Ascending(sizes) && |sizes| == |values|
      && forall k :: 0 <= k < |sizes| ==> Fits(sizes, k)
    }
  }

  /** `t` is the tree that was built from `table`. */
  ghost predicate TreeOf(t: Tree, table: CodeTable) {
    table.Valid() && Grown(t, table.sizes, table.values, |table.values|)
  }

  // ---------------------------------------------------------------- encoding

  /** The code word of `symbol`, unless the table has none. */
  ghost function Code(table: CodeTable, symbol: nat): Option<seq<bool>>
    requires table.Valid()
  {
    if k :| 0 <= k < |table.values| && table.values[k] == symbol then Some(CodeWord(table.sizes, k)) else None
  }

  function Abs(x: int): nat { if x < 0 then -x else x }

  /** SSSS: how many bits the magnitude of `d` takes. */
  function Category(d: int): nat { BitLength(Abs(d)) }

  function BitLength(n: nat): (b: nat)
    ensures n < Pow2(b) && (b > 0 ==> Pow2(b - 1) <= n)
  {
    if n == 0 then 0 else 1 + BitLength(n / 2)
  }

  /** The bits that follow a size: the low-order bits of `d`, or of `d - 1` if it is negative. */
  function Magnitude(d: int): (bits: seq<bool>)
    ensures |bits| == Category(d)
  {
    ToBits(if d >= 0 then d else d - 1 + Pow2(Category(d)), Category(d))
  }

  /** The bits of a positive value are its binary digits, none of them a leading zero; those
      of its negative are the complement, bit by bit. */
  lemma MagnitudeComplements(d: int)
    requires d > 0
    ensures Value(Magnitude(d)) == d && |Magnitude(-d)| == |Magnitude(d)| > 0 && Magnitude(d)[0]
    ensures forall i :: 0 <= i < |Magnitude(d)| ==> Magnitude(-d)[i] == !Magnitude(d)[i]
  {
    ValueToBits(d, Category(d));
    ToBitsComplement(d, Category(d));
  }

  lemma {:induction false} ToBitsComplement(c: nat, h: nat)
    requires c < Pow2(h)
    ensures forall i :: 0 <= i < h ==> ToBits(Pow2(h) - 1 - c, h)[i] == !ToBits(c, h)[i]
  {
    if h > 0 {
      var half := Pow2(h - 1);
      ToBitsComplement(if c < half then c else c - half, h - 1);
    }
  }

  ghost function Join(a: Option<seq<bool>>, b: Option<seq<bool>>): Option<seq<bool>> {
    if a == None || b == None then None else Some(a.value + b.value)
  }

  ghost function EncodeDc(table: CodeTable, diff: int): Option<seq<bool>>
    requires table.Valid()
  {
    if Category(diff) > 16 then None else Join(Code(table, Category(diff)), Some(Magnitude(diff)))
  }

  /** Coefficients from `k` on, when the last `run` before it were zero. */
  ghost function EncodeAc(table: CodeTable, coefs: seq<int>, k: nat, run: nat): Option<seq<bool>>
    requires table.Valid() && |coefs| == 64 && k <= 64
    decreases 64 - k, run
  {
    if k == 64 then Some([])
    else if coefs[k] == 0 then
      if k == 63 then Code(table, 0x00) else EncodeAc(table, coefs, k + 1, run + 1)
    else if run > 15 then Join(Code(table, 0xF0), EncodeAc(table, coefs, k, run - 16))
    else if Category(coefs[k]) > 15 then None
    else
      Join(Join(Code(table, 16 * run + Category(coefs[k])), Some(Magnitude(coefs[k]))),
           EncodeAc(table, coefs, k + 1, 0))
  }

  /** The code for `n` runs of sixteen zeros. */
  ghost function SixteenZeros(table: CodeTable, n: nat): Option<seq<bool>>
    requires table.Valid()
  {
    if n == 0 then Some([]) else Join(Code(table, 0xF0), SixteenZeros(table, n - 1))
  }

  /** After `run` zeros, a coefficient is coded by one ZRL for each sixteen of them, and
      then by the symbol RRRRSSSS of the rest of the run and its category, and its bits. */
  lemma CodedRun(table: CodeTable, coefs: seq<int>, k: nat, run: nat)
    requires table.Valid() && |coefs| == 64 && k + run < 64
    requires coefs[k + run] != 0 && forall i :: k <= i < k + run ==> coefs[i] == 0
    ensures var c := coefs[k + run];
            EncodeAc(table, coefs, k, 0)
            == if Category(c) > 15 then None
               else Join(SixteenZeros(table, run / 16),
                         Join(Join(Code(table, 16 * (run % 16) + Category(c)), Some(Magnitude(c))),
                              EncodeAc(table, coefs, k + run + 1, 0)))
  {
    hide EncodeAc;
    CodedZeros(table, coefs, k, 0, run);
    CodedSixteens(table, coefs, k + run, run);
    CodedShortRun(table, coefs, k + run, run % 16);
    if Category(coefs[k + run]) > 15 {
      assert EncodeAc(table, coefs, k, 0) == Join(SixteenZeros(table, run / 16), None);
    }
  }

  lemma CodedShortRun(table: CodeTable, coefs: seq<int>, k: nat, run: nat)
    requires table.Valid() && |coefs| == 64 && k < 64 && coefs[k] != 0 && run <= 15
    ensures EncodeAc(table, coefs, k, run)
         == if Category(coefs[k]) > 15 then None
            else Join(Join(Code(table, 16 * run + Category(coefs[k])), Some(Magnitude(coefs[k]))),
                      EncodeAc(table, coefs, k + 1, 0))
  {
  }

  /** Zeros up to the end of the block are coded by one symbol. */
  lemma CodedEnd(table: CodeTable, coefs: seq<int>, k: nat)
    requires table.Valid() && |coefs| == 64 && k <= 64 && forall i :: k <= i < 64 ==> coefs[i] == 0
    ensures EncodeAc(table, coefs, k, 0) == if k == 64 then Some([]) else Code(table, 0x00)
  {
    if k < 64 {
      CodedZeros(table, coefs, k, 0, 63 - k);
    }
  }

  lemma {:induction false} CodedZeros(table: CodeTable, coefs: seq<int>, k: nat, run: nat, zeros: nat)
    requires table.Valid() && |coefs| == 64 && k + zeros < 64
    requires forall i :: k <= i < k + zeros ==> coefs[i] == 0
    ensures EncodeAc(table, coefs, k, run) == EncodeAc(table, coefs, k + zeros, run + zeros)
    decreases zeros
  {
    if zeros > 0 {
      CodedZeros(table, coefs, k + 1, run + 1, zeros - 1);
    }
  }

  lemma {:induction false} CodedSixteens(table: CodeTable, coefs: seq<int>, k: nat, run: nat)
    requires table.Valid() && |coefs| == 64 && k < 64 && coefs[k] != 0
    ensures EncodeAc(table, coefs, k, run)
         == Join(SixteenZeros(table, run / 16), EncodeAc(table, coefs, k, run % 16))
  {
    hide Code, Category, Magnitude;
    var rest := EncodeAc(table, coefs, k, run % 16);
    if run < 16 {
      JoinNothing(rest);
    } else {
      CodedSixteens(table, coefs, k, run - 16);
      assert (run - 16) % 16 == run % 16 && (run - 16) / 16 == run / 16 - 1;
      JoinJoin(Code(table, 0xF0), SixteenZeros(table, run / 16 - 1), rest);
    }
  }

  lemma JoinNothing(a: Option<seq<bool>>)
    ensures Join(Some([]), a) == a
  {
    if a.Some? {
      assert [] + a.value == a.value;
    }
  }

  lemma JoinJoin(a: Option<seq<bool>>, b: Option<seq<bool>>, c: Option<seq<bool>>)
    ensures Join(Join(a, b), c) == Join(a, Join(b, c))
  {
    if a.Some? && b.Some? && c.Some? {
      assert a.value + b.value + c.value == a.value + (b.value + c.value);
    }
  }

  // ---------------------------------------------------------------- decoding

  /** DECODE: follow the bits from `t` down to a leaf. */
  function DecodeSymbol(t: Tree, bits: seq<bool>): (d: Decoded<byte>)
    ensures d.Ok? ==> |d.rest| < |bits|
    decreases |bits|
  {
    if bits == [] || !t.Fork? then Fail
    else
      var next := if bits[0] then t.right else t.left;
      if next.Empty? then Fail
      else if next.Leaf? then Ok(next.value, bits[1..])
      else DecodeSymbol(next, bits[1..])
  }

  /** RECEIVE and EXTEND: `size` bits read back as a signed difference. */
  function Receive(size: nat, bits: seq<bool>): (d: Decoded<int>)
    ensures d.Ok? ==> |d.rest| <= |bits|
  {
    if size > 16 || |bits| < size then Fail
    else if size == 0 then Ok(0, bits)
    else if bits[0] then Ok(Value(bits[..size]), bits[size..])
    else Ok(Value(bits[..size]) - Pow2(size) + 1, bits[size..])
  }

  function DecodeDc(t: Tree, bits: seq<bool>): (d: Decoded<int>)
    ensures d.Ok? ==> |d.rest| < |bits|
  {
    match DecodeSymbol(t, bits)
    case Fail => Fail
    case Ok(size, rest) => Receive(size, rest)
  }

  /** The coefficients of `block` from `i` on, each multiplied by its entry of `q`. */
  function DecodeAc(t: Tree, q: seq<nat>, i: nat, block: seq<int>, bits: seq<bool>): (d: Decoded<seq<int>>)
    requires |q| == |block| == 64
    ensures d.Ok? ==> |d.value| == 64 && |d.rest| <= |bits|
    decreases |bits|
  {
    if i >= 64 then Ok(block, bits)
    else
      match DecodeSymbol(t, bits)
      case Fail => Fail
      case Ok(symbol, afterSymbol) =>
        if symbol == 0 then Ok(block, afterSymbol)
        else
          match Receive(symbol % 16, afterSymbol)
          case Fail => Fail
          case Ok(ac, rest) =>
            var j := i + symbol / 16;
            if j > 64 then Fail
            else if j == 64 then Ok(block, rest)
            else DecodeAc(t, q, j + 1, block[j := ac * q[j]], rest)
  }

  // -------------------------------------------------------------- round trips

  lemma {:induction false} DecodeSymbolPath(t: Tree, path: seq<bool>, v: byte, rest: seq<bool>)
    requires t.Fork? && Lookup(t, path) == Some(v)
    ensures DecodeSymbol(t, path + rest) == Ok(v, rest)
  {
    var next := if path[0] then t.right else t.left;
    assert (path + rest)[1..] == path[1..] + rest;
    if next.Leaf? {
      assert path[1..] + rest == rest;
    } else {
      DecodeSymbolPath(next, path[1..], v, rest);
    }
  }

  lemma DecodeSymbolInverts(t: Tree, table: CodeTable, symbol: nat, rest: seq<bool>)
    requires TreeOf(t, table) && Code(table, symbol) != None
    ensures DecodeSymbol(t, Code(table, symbol).value + rest) == Ok(symbol as byte, rest)
  {
    var k :| 0 <= k < |table.values| && table.values[k] == symbol
        && Code(table, symbol) == Some(CodeWord(table.sizes, k));
    DecodeSymbolPath(t, CodeWord(table.sizes, k), table.values[k], rest);
  }

  lemma ReceiveInverts(d: int, rest: seq<bool>)
    requires Category(d) <= 16
    ensures Receive(Category(d), Magnitude(d) + rest) == Ok(d, rest)
  {
    var size, bits := Category(d), Magnitude(d) + rest;
    assert bits[..size] == Magnitude(d) && bits[size..] == rest;
    if size > 0 {
      var low := if d >= 0 then d else d - 1 + Pow2(size);
      ValueToBits(low, size);
      assert bits[0] == Magnitude(d)[0] == (low >= Pow2(size - 1));
    }
  }

  lemma DecodeDcInverts(t: Tree, table: CodeTable, diff: int, rest: seq<bool>)
    requires TreeOf(t, table) && EncodeDc(table, diff) != None
    ensures DecodeDc(t, EncodeDc(table, diff).value + rest) == Ok(diff, rest)
  {
    var size := Category(diff);
    var code, magnitude := Code(table, size).value, Magnitude(diff);
    assert code + magnitude + rest == code + (magnitude + rest);
    DecodeSymbolInverts(t, table, size, magnitude + rest);
    ReceiveInverts(diff, rest);
  }

  /** `block` as it should look once the coefficients before `k` are decoded; its
      DC entry is `first`. */
  ghost predicate DecodedUpTo(first: int, block: seq<int>, coefs: seq<int>, q: seq<nat>, k: nat)
    requires |block| == |coefs| == |q| == 64
  {
    && block[0] == first
    && (forall i :: 1 <= i < 64 && i < k ==> block[i] == coefs[i] * q[i])
    && (forall i :: k <= i < 64 ==> block[i] == 0)
  }

  lemma DecodedUpToZero(first: int, block: seq<int>, coefs: seq<int>, q: seq<nat>, k: nat)
    requires |block| == |coefs| == |q| == 64 && k < 64 && DecodedUpTo(first, block, coefs, q, k) && coefs[k] == 0
    ensures DecodedUpTo(first, block, coefs, q, k + 1)
  {
    assert coefs[k] * q[k] == 0;
  }

  lemma DecodedUpToSet(first: int, block: seq<int>, coefs: seq<int>, q: seq<nat>, k: nat)
    requires |block| == |coefs| == |q| == 64 && 1 <= k < 64 && DecodedUpTo(first, block, coefs, q, k)
    ensures DecodedUpTo(first, block[k := coefs[k] * q[k]], coefs, q, k + 1)
  {
  }

  lemma {:induction false} DecodeAcInverts(first: int, t: Tree, table: CodeTable, q: seq<nat>, coefs: seq<int>, k: nat,
          run: nat, block: seq<int>, rest: seq<bool>)
    requires TreeOf(t, table) && |q| == |block| == |coefs| == 64 && 1 + run <= k <= 64
    requires DecodedUpTo(first, block, coefs, q, k) && forall i :: k - run <= i < k ==> coefs[i] == 0
    requires run > 0 ==> k < 64
    requires EncodeAc(table, coefs, k, run) != None
    ensures var d := DecodeAc(t, q, k - run, block, EncodeAc(table, coefs, k, run).value + rest);
            d.Ok? && d.rest == rest && DecodedUpTo(first, d.value, coefs, q, 64)
    decreases 64 - k, run
  {
    hide DecodedUpTo, DecodeAc, EncodeAc, Category, DecodeSymbol;
    if k == 64 || coefs[k] == 0 {
      EncodeAcZero(table, coefs, k, run);
    }
    if k == 64 {
      assert [] + rest == rest;
      DecodeAcStops(t, q, 64, block, rest);
    } else if coefs[k] == 0 {
      DecodedUpToZero(first, block, coefs, q, k);
      if k == 63 {
        DecodeSymbolInverts(t, table, 0x00, rest);
        DecodeAcEndOfBlock(t, q, k - run, block, Code(table, 0x00).value + rest, rest);
      } else {
        DecodeAcInverts(first, t, table, q, coefs, k + 1, run + 1, block, rest);
      }
    } else if run > 15 {
      CodedZrl(first, t, table, q, coefs, k, run, block, rest);
      DecodeAcInverts(first, t, table, q, coefs, k, run - 16, block, rest);
    } else {
      CodedCoefficient(t, table, q, coefs, k, run, block, rest);
      DecodedUpToSet(first, block, coefs, q, k);
      DecodeAcInverts(first, t, table, q, coefs, k + 1, 0, block[k := coefs[k] * q[k]], rest);
    }
  }

  lemma EncodeAcZero(table: CodeTable, coefs: seq<int>, k: nat, run: nat)
    requires table.Valid() && |coefs| == 64 && k <= 64
    ensures k == 64 ==> EncodeAc(table, coefs, k, run) == Some([])
    ensures k == 63 && coefs[k] == 0 ==> EncodeAc(table, coefs, k, run) == Code(table, 0x00)
    ensures k < 63 && coefs[k] == 0 ==> EncodeAc(table, coefs, k, run) == EncodeAc(table, coefs, k + 1, run + 1)
  {
  }

  lemma CodedZrl(first: int, t: Tree, table: CodeTable, q: seq<nat>, coefs: seq<int>, k: nat, run: nat,
          block: seq<int>, rest: seq<bool>)
    requires TreeOf(t, table) && |q| == |block| == |coefs| == 64 && 15 < run < k < 64 && coefs[k] != 0
    requires DecodedUpTo(first, block, coefs, q, k) && forall i :: k - run <= i < k ==> coefs[i] == 0
    requires EncodeAc(table, coefs, k, run) != None
    ensures EncodeAc(table, coefs, k, run - 16) != None
    ensures DecodeAc(t, q, k - run, block, EncodeAc(table, coefs, k, run).value + rest)
         == DecodeAc(t, q, k - run + 16, block, EncodeAc(table, coefs, k, run - 16).value + rest)
  {
    hide DecodedUpTo, DecodeAc, Category;
    var more := EncodeAc(table, coefs, k, run - 16).value;
    DecodeAcZrl(first, t, table, q, coefs, k, run, block, more + rest);
    assert Code(table, 0xF0).value + more + rest == Code(table, 0xF0).value + (more + rest);
  }

  lemma CodedCoefficient(t: Tree, table: CodeTable, q: seq<nat>, coefs: seq<int>, k: nat, run: nat, block: seq<int>,
          rest: seq<bool>)
    requires TreeOf(t, table) && |q| == |block| == |coefs| == 64 && run <= 15 && run < k < 64 && coefs[k] != 0
    requires EncodeAc(table, coefs, k, run) != None
    ensures EncodeAc(table, coefs, k + 1, 0) != None
    ensures DecodeAc(t, q, k - run, block, EncodeAc(table, coefs, k, run).value + rest)
         == DecodeAc(t, q, k + 1, block[k := coefs[k] * q[k]], EncodeAc(table, coefs, k + 1, 0).value + rest)
  {
    hide DecodeAc, EncodeAc, Magnitude, Category, Code, Grown;
    EncodeAcNonzero(table, coefs, k, run);
    var head := Code(table, 16 * run + Category(coefs[k])).value + Magnitude(coefs[k]);
    var more := EncodeAc(table, coefs, k + 1, 0).value;
    Regroup(head, more, rest);
    DecodeAcStep(t, table, q, coefs, k, run, block, more + rest);
  }

  lemma Regroup(a: seq<bool>, b: seq<bool>, c: seq<bool>)
    ensures a + b + c == a + (b + c)
  {
  }

  lemma EncodeAcNonzero(table: CodeTable, coefs: seq<int>, k: nat, run: nat)
    requires table.Valid() && |coefs| == 64 && k < 64 && coefs[k] != 0 && run <= 15
    requires EncodeAc(table, coefs, k, run) != None
    ensures Category(coefs[k]) <= 15 && EncodeAc(table, coefs, k + 1, 0) != None
    ensures Code(table, 16 * run + Category(coefs[k])) != None
    ensures EncodeAc(table, coefs, k, run).value
         == Code(table, 16 * run + Category(coefs[k])).value + Magnitude(coefs[k])
             + EncodeAc(table, coefs, k + 1, 0).value
  {
  }

  lemma DecodeAcStops(t: Tree, q: seq<nat>, i: nat, block: seq<int>, bits: seq<bool>)
    requires |q| == |block| == 64 && i >= 64
    ensures DecodeAc(t, q, i, block, bits) == Ok(block, bits)
  {
  }

  lemma DecodeAcEndOfBlock(t: Tree, q: seq<nat>, i: nat, block: seq<int>, bits: seq<bool>, rest: seq<bool>)
    requires |q| == |block| == 64 && i < 64 && DecodeSymbol(t, bits) == Ok(0, rest)
    ensures DecodeAc(t, q, i, block, bits) == Ok(block, rest)
  {
    hide DecodeSymbol;
  }

  /** Sixteen zeros at once. */
  lemma DecodeAcZrl(first: int, t: Tree, table: CodeTable, q: seq<nat>, coefs: seq<int>, k: nat, run: nat,
          block: seq<int>, rest: seq<bool>)
    requires TreeOf(t, table) && |q| == |block| == |coefs| == 64 && 15 < run <= k < 64
    requires Code(table, 0xF0) != None && DecodedUpTo(first, block, coefs, q, k) && k - run >= 1
    requires forall i :: k - run <= i < k ==> coefs[i] == 0
    ensures DecodeAc(t, q, k - run, block, Code(table, 0xF0).value + rest) == DecodeAc(t, q, k - run + 16, block, rest)
  {
    hide DecodeAc;
    var j := k - run + 15;
    DecodeSymbolInverts(t, table, 0xF0, rest);
    DecodeAcUnfold(t, q, k - run, block, Code(table, 0xF0).value + rest, 0xF0, rest, 0, rest);
    assert block[j] == coefs[j] * q[j] && coefs[j] == 0;
    assert block[j := 0 * q[j]] == block;
  }

  /** One run/size symbol and its magnitude. */
  lemma DecodeAcStep(t: Tree, table: CodeTable, q: seq<nat>, coefs: seq<int>, k: nat, run: nat, block: seq<int>,
          rest: seq<bool>)
    requires TreeOf(t, table) && |q| == |block| == |coefs| == 64 && run <= k < 64
    requires run <= 15 && coefs[k] != 0 && Category(coefs[k]) <= 15
    requires Code(table, 16 * run + Category(coefs[k])) != None
    ensures DecodeAc(t, q, k - run, block,
              Code(table, 16 * run + Category(coefs[k])).value + Magnitude(coefs[k]) + rest)
         == DecodeAc(t, q, k + 1, block[k := coefs[k] * q[k]], rest)
  {
    hide DecodeAc, Code, Grown, DecodeSymbol, Receive;
    var size := Category(coefs[k]);
    var symbol := 16 * run + size;
    var code, magnitude := Code(table, symbol).value, Magnitude(coefs[k]);
    Regroup(code, magnitude, rest);
    DecodeSymbolInverts(t, table, symbol, magnitude + rest);
    ReceiveInverts(coefs[k], rest);
    SplitSymbol(run, size);
    DecodeAcUnfold(t, q, k - run, block, code + (magnitude + rest), symbol, magnitude + rest, coefs[k], rest);
  }

  lemma SplitSymbol(run: nat, size: nat)
    requires size <= 15
    ensures (16 * run + size) / 16 == run && (16 * run + size) % 16 == size
  {
  }

  /** A run that leads past the block is an error; one that leads right behind its last
      coefficient ends the block, and the value that was read with it is dropped. */
  lemma RunPastBlock(t: Tree, q: seq<nat>, i: nat, block: seq<int>, bits: seq<bool>, run: nat, size: nat,
          afterSymbol: seq<bool>, ac: int, rest: seq<bool>)
    requires |q| == |block| == 64 && i < 64 && run <= 15 && size <= 15 && i + run >= 64
    requires DecodeSymbol(t, bits) == Ok(16 * run + size, afterSymbol) && Receive(size, afterSymbol) == Ok(ac, rest)
    ensures DecodeAc(t, q, i, block, bits) == if i + run > 64 then Fail else Ok(block, rest)
  {
    hide DecodeSymbol, Receive;
    SplitSymbol(run, size);
  }

  /** `DecodeAc` on one symbol that is not the end of the block. */
  lemma DecodeAcUnfold(t: Tree, q: seq<nat>, i: nat, block: seq<int>, bits: seq<bool>, symbol: byte,
          afterSymbol: seq<bool>, ac: int, rest: seq<bool>)
    requires |q| == |block| == 64 && i + symbol / 16 < 64 && symbol != 0
    requires DecodeSymbol(t, bits) == Ok(symbol, afterSymbol) && Receive(symbol % 16, afterSymbol) == Ok(ac, rest)
    ensures var j := i + symbol / 16;
            DecodeAc(t, q, i, block, bits) == DecodeAc(t, q, j + 1, block[j := ac * q[j]], rest)
  {
    hide DecodeSymbol, Receive;
  }
}
