/** `BitReader`: byte unstuffing and bit extraction. */
module BitReading {
  import opened Bits

  /** The eight bits of each byte, in order. */
  function BitsOf(bytes: seq<byte>): (bits: seq<bool>)
    ensures |bits| == 8 * |bytes|
  {
    if bytes == [] then [] else ByteBits(bytes[0]) + BitsOf(bytes[1..])
  }

  function ByteBits(b: byte): (bits: seq<bool>)
    ensures |bits| == 8
  {
    assert Pow2(8) == 256 by { assert Pow2(4) == 16; }
    ToBits(b, 8)
  }

  /** The bits of a byte are its binary digits, most significant first. */
  lemma ByteBitsAre(b: byte, i: nat)
    requires i < 8
    ensures Value(ByteBits(b)) == b && (ByteBits(b)[i] <==> Shr(b, 7 - i) % 2 == 1) && (ByteBits(b)[0] <==> b >= 128)
  {
    assert Pow2(8) == 256 by { assert Pow2(4) == 16; }
    ValueToBits(b, 8);
    ToBitsAt(b, 8, i);
    assert Pow2(7) == 128 by { assert Pow2(4) == 16; }
  }

  /** The data bytes that reading `s` yields when the byte before it was `last`. */
  function Unstuff(last: byte, s: seq<byte>): seq<byte>
    decreases |s|
  {
    if s == [] then []
    else if last == 255 && s[0] == 0 then (if |s| == 1 then [] else [s[1]] + Unstuff(s[1], s[2..]))
    else [s[0]] + Unstuff(s[0], s[1..])
  }

  /** Section F.1.2.3 of ITU-T T.81: a zero byte follows every 0xFF byte. */
  function Stuff(data: seq<byte>): seq<byte> {
    if data == [] then []
    else (if data[0] == 255 then [255, 0] else [data[0]]) + Stuff(data[1..])
  }

  /** What a reader that has taken in all of `data` has not read yet: a byte
      stuffed after the last data byte stays in the stream. */
  function Unread(data: seq<byte>, tail: seq<byte>): seq<byte> {
    if data != [] && data[|data| - 1] == 255 then [0] + tail else tail
  }

  function LastByte(last: byte, data: seq<byte>): byte {
    if data == [] then last else data[|data| - 1]
  }

  /** The reader takes a leading zero byte for one stuffed after an earlier 0xFF. */
  predicate DropsFirst(last: byte, data: seq<byte>) {
    last == 255 && data != [] && data[0] == 0
  }

  lemma StuffNothing(tail: seq<byte>)
    ensures Stuff([]) + tail == tail
  {
  }

  lemma Joined(a: seq<byte>, b: seq<byte>, c: seq<byte>)
    ensures a + b + c == a + (b + c)
  {
  }

  lemma StuffPlain(data: seq<byte>, tail: seq<byte>)
    requires data != [] && data[0] != 255
    ensures Stuff(data) + tail == [data[0]] + (Stuff(data[1..]) + tail)
  {
    Joined([data[0]], Stuff(data[1..]), tail);
  }

  lemma StuffFF(data: seq<byte>, tail: seq<byte>)
    requires data != [] && data[0] == 255
    ensures Stuff(data) + tail == [255] + ([0] + (Stuff(data[1..]) + tail))
  {
    assert Stuff(data) == [255, 0] + Stuff(data[1..]);
  }

  lemma PeelFront(data: seq<byte>, u: seq<byte>)
    requires data != []
    ensures data + u == [data[0]] + (data[1..] + u)
  {
  }

  /** Unstuffing recovers stuffed data, whatever comes after it. */
  lemma {:induction false} UnstuffStuff(last: byte, data: seq<byte>, tail: seq<byte>)
    requires !DropsFirst(last, data)
    ensures Unstuff(last, Stuff(data) + tail) == data + Unstuff(LastByte(last, data), Unread(data, tail))
    decreases |data|
  {
    hide Unstuff, Stuff;
    if data == [] {
      StuffNothing(tail);
      assert forall u: seq<byte> :: [] + u == u;
    } else {
      var b, rest := data[0], data[1..];
      PeelFront(data, Unstuff(LastByte(last, data), Unread(data, tail)));
      if b == 255 {
        StuffFF(data, tail);
        UnstuffCons(last, 255, [0] + (Stuff(rest) + tail));
        UnstuffAfterFF(rest, tail);
      } else {
        StuffPlain(data, tail);
        UnstuffCons(last, b, Stuff(rest) + tail);
        UnstuffStuff(b, rest, tail);
      }
    }
  }

  lemma {:induction false} UnstuffAfterFF(data: seq<byte>, tail: seq<byte>)
    ensures Unstuff(255, [0] + (Stuff(data) + tail))
         == data + Unstuff(LastByte(255, data), if data == [] then [0] + tail else Unread(data, tail))
    decreases |data|
  {
    hide Unstuff, Stuff;
    if data == [] {
      StuffNothing(tail);
      assert forall u: seq<byte> :: [] + u == u;
    } else {
      var b, rest := data[0], data[1..];
      PeelFront(data, Unstuff(LastByte(255, data), Unread(data, tail)));
      if b == 255 {
        StuffFF(data, tail);
        UnstuffSkip(255, [0] + (Stuff(rest) + tail));
        UnstuffAfterFF(rest, tail);
      } else {
        StuffPlain(data, tail);
        UnstuffSkip(b, Stuff(rest) + tail);
        UnstuffStuff(b, rest, tail);
      }
    }
  }

  /** Stuffed data comes back unchanged exactly when its first byte is not
      mistaken for a stuffed one. */
  lemma UnstuffStuffIff(last: byte, data: seq<byte>)
    ensures Unstuff(last, Stuff(data)) == data <==> !DropsFirst(last, data)
  {
    if DropsFirst(last, data) {
      var rest := data[1..];
      assert Stuff(data) == [0] + Stuff(rest);
      assert Stuff(rest) + [] == Stuff(rest);
      UnstuffAfterFF(rest, []);
      assert |Unstuff(255, [0] + Stuff(rest))| == |rest|;
    } else {
      UnstuffStuff(last, data, []);
      assert Stuff(data) + [] == Stuff(data);
    }
  }

  lemma UnstuffCons(last: byte, b: byte, s: seq<byte>)
    requires !(last == 255 && b == 0)
    ensures Unstuff(last, [b] + s) == [b] + Unstuff(b, s)
  {
    assert ([b] + s)[1..] == s;
  }

  lemma UnstuffSkip(b: byte, s: seq<byte>)
    ensures Unstuff(255, [0] + ([b] + s)) == [b] + Unstuff(b, s)
  {
    assert ([0] + ([b] + s))[2..] == s;
  }

  datatype GetResult = Got(value: nat, firstBit: bool) | WrongCount | NoMoreBits

  function Int16(x: int): int {
    (x + 0x8000) % 0x1_0000 - 0x8000
  }

  /** Shifting the 16-bit accumulator loses nothing before the 17th bit. */
  lemma Int16Step(bits: seq<bool>, n: nat)
    requires 1 <= n < 16 && n < |bits|
    ensures Int16(2 * Int16(Value(bits[..n]))) + (if bits[n] then 1 else 0) == Int16(Value(bits[..n + 1]))
    ensures Value(bits[..n + 1]) < 0x1_0000
  {
    assert bits[..n + 1][..n] == bits[..n];
    ValueBound(bits[..n]);
    Pow2Monotone(n, 15);
    Pow2Of15();
    DoubleInt16(Value(bits[..n]), if bits[n] then 1 else 0);
  }

  lemma Pow2Of15()
    ensures Pow2(15) == 0x8000
  {
    assert Pow2(3) == 8;
    assert Pow2(6) == 64;
    assert Pow2(9) == 512;
    assert Pow2(12) == 4096;
  }

  lemma DoubleInt16(v: nat, bit: nat)
    requires v < 0x8000 && bit < 2
    ensures Int16(2 * Int16(v)) + bit == Int16(2 * v + bit)
  {
    assert Int16(v) == v;
  }

  lemma Int16Back(v: nat)
    requires v < 0x1_0000
    ensures Int16(v) % 0x1_0000 == v
  {
    if v >= 0x8000 {
      assert Int16(v) == v - 0x1_0000;
    }
  }

  /** The bits to come when `p` bits of `buffer` are used and `s` is unread; a
      fully used byte is followed by a refill. */
  function PendingBits(p: nat, buffer: byte, s: seq<byte>): seq<bool>
    requires p < 8
  {
    if p == 0 then BitsOf(Unstuff(buffer, s)) else BufferedBits(p, buffer, s)
  }

  function BufferedBits(p: nat, buffer: byte, s: seq<byte>): seq<bool>
    requires p < 8
  {
    ByteBits(buffer)[p..] + BitsOf(Unstuff(buffer, s))
  }

  lemma TakeOneBit(p: nat, buffer: byte, s: seq<byte>)
    requires p < 8
    ensures var bits := BufferedBits(p, buffer, s);
            && bits != []
            && (bits[0] <==> Shr(buffer, 7 - p) % 2 == 1)
            && bits[1..] == PendingBits(if p == 7 then 0 else p + 1, buffer, s)
  {
    hide BitsOf, Unstuff, ByteBits, ToBits, Shr;
    var a, rest := ByteBits(buffer), BitsOf(Unstuff(buffer, s));
    ByteBitsAt(buffer, p);
    DropHead(a, rest, p);
  }

  lemma ByteBitsAt(b: byte, p: nat)
    requires p < 8
    ensures ByteBits(b)[p] <==> Shr(b, 7 - p) % 2 == 1
  {
    assert Pow2(8) == 256 by { assert Pow2(4) == 16; }
    ToBitsAt(b, 8, p);
  }

  lemma DropHead(a: seq<bool>, rest: seq<bool>, p: nat)
    requires p < |a|
    ensures (a[p..] + rest)[0] == a[p]
    ensures (a[p..] + rest)[1..] == if p + 1 == |a| then rest else a[p + 1..] + rest
  {
  }

  // ----------------------------------------------------- places in a stream

  /** Where a reader stands: the bits used of the buffered byte, that byte, and the bytes
      still in the stream. */
  datatype Place = Place(used: nat, buffer: byte, rest: seq<byte>) {
    function Bits(): seq<bool>
      requires used < 8
    {
      PendingBits(used, buffer, rest)
    }
  }

  /** The next data byte and what it leaves in the stream; a byte stuffed after 0xFF is
      skipped on the way. */
  function Load(buffer: byte, rest: seq<byte>): Place {
    if rest != [] && !(buffer == 255 && rest[0] == 0) then Place(0, rest[0], rest[1..])
    else if |rest| > 1 then Place(0, rest[1], rest[2..])
    else Place(0, buffer, rest)
  }

  /** One bit further on. */
  function Step(p: Place): (q: Place)
    requires p.used < 8
    ensures q.used < 8
  {
    if p.used > 0 then p.(used := (p.used + 1) % 8) else Load(p.buffer, p.rest).(used := 1)
  }

  function Taken(p: Place, n: nat): (q: Place)
    requires p.used < 8
    ensures q.used < 8
  {
    if n == 0 then p else Step(Taken(p, n - 1))
  }

  lemma {:induction false} TakenTwice(p: Place, m: nat, n: nat)
    requires p.used < 8
    ensures Taken(Taken(p, m), n) == Taken(p, m + n)
  {
    if n > 0 {
      TakenTwice(p, m, n - 1);
    }
  }

  lemma StepTakesOne(p: Place)
    requires p.used < 8 && p.Bits() != []
    ensures Step(p).Bits() == p.Bits()[1..]
  {
    hide ByteBits, BitsOf;
    if p.used > 0 {
      TakeOneBit(p.used, p.buffer, p.rest);
    } else {
      LoadedBits(p.buffer, p.rest);
      var q := Load(p.buffer, p.rest);
      TakeOneBit(0, q.buffer, q.rest);
    }
  }

  lemma LoadedBits(buffer: byte, rest: seq<byte>)
    requires PendingBits(0, buffer, rest) != []
    ensures var q := Load(buffer, rest); PendingBits(0, buffer, rest) == BufferedBits(0, q.buffer, q.rest)
  {
    hide ByteBits;
    var q := Load(buffer, rest);
    assert Unstuff(buffer, rest) != [] ==> Unstuff(buffer, rest) == [q.buffer] + Unstuff(q.buffer, q.rest);
    assert ByteBits(q.buffer)[0..] == ByteBits(q.buffer);
  }

  lemma {:induction false} TakenBits(p: Place, n: nat)
    requires p.used < 8 && n <= |p.Bits()|
    ensures Taken(p, n).Bits() == p.Bits()[n..]
  {
    hide PendingBits, Step;
    if n > 0 {
      TakenBits(p, n - 1);
      StepTakesOne(Taken(p, n - 1));
    }
  }

  /** `q` is where a reader gets to from `p` by taking bits that are there. */
  ghost predicate Reaches(p: Place, q: Place) {
    p.used < 8 && exists n: nat :: n <= |p.Bits()| && q == Taken(p, n)
  }

  lemma ReachesNext(p: Place, q: Place)
    requires Reaches(p, q) && q.used < 8 && q.Bits() != []
    ensures Reaches(p, Step(q))
  {
    var n: nat :| n <= |p.Bits()| && q == Taken(p, n);
    TakenBits(p, n);
    assert Step(q) == Taken(p, n + 1);
    hide PendingBits;
  }

  /** How many bits are still to come says where the reader stands. */
  lemma PlaceOfBits(p: Place, q: Place, n: nat)
    requires Reaches(p, q) && q.used < 8 && n <= |p.Bits()| && |q.Bits()| == |p.Bits()| - n
    ensures q == Taken(p, n)
  {
    var m: nat :| m <= |p.Bits()| && q == Taken(p, m);
    TakenBits(p, m);
    hide PendingBits;
  }

  /** The data byte `data[0]` comes next. */
  ghost predicate ComesNext(p: Place, data: seq<byte>, tail: seq<byte>) {
    || (p.rest == Stuff(data) + tail && !DropsFirst(p.buffer, data))
    || (p.buffer == 255 && p.rest == [0] + (Stuff(data) + tail))
  }

  /** What loading `data[0]` leaves: the byte stuffed after it, and the rest. */
  function Behind(data: seq<byte>, tail: seq<byte>): seq<byte>
    requires data != []
  {
    if data[0] == 255 then [0] + (Stuff(data[1..]) + tail) else Stuff(data[1..]) + tail
  }

  lemma StuffedFront(data: seq<byte>, tail: seq<byte>)
    requires data != []
    ensures Stuff(data) + tail == [data[0]] + Behind(data, tail)
  {
    if data[0] == 255 {
      StuffFF(data, tail);
    } else {
      StuffPlain(data, tail);
    }
  }

  lemma LoadsFirst(p: Place, data: seq<byte>, tail: seq<byte>)
    requires data != [] && ComesNext(p, data, tail)
    ensures Load(p.buffer, p.rest) == Place(0, data[0], Behind(data, tail))
  {
    hide Stuff, Behind, Load;
    StuffedFront(data, tail);
    LoadPlain(p.buffer, data[0], Behind(data, tail));
    LoadSkipping(data[0], Behind(data, tail));
  }

  lemma LoadPlain(buffer: byte, b: byte, behind: seq<byte>)
    ensures !(buffer == 255 && b == 0) ==> Load(buffer, [b] + behind) == Place(0, b, behind)
  {
  }

  lemma LoadSkipping(b: byte, behind: seq<byte>)
    ensures Load(255, [0] + ([b] + behind)) == Place(0, b, behind)
  {
    assert ([0] + ([b] + behind))[2..] == behind;
  }

  lemma BehindIs(data: seq<byte>, tail: seq<byte>, p: Place)
    requires data != [] && p == Place(0, data[0], Behind(data, tail))
    ensures |data| == 1 ==> p.rest == Unread(data, tail)
    ensures |data| > 1 ==> ComesNext(p, data[1..], tail)
  {
    StuffNothing(tail);
    assert |data| == 1 ==> data[1..] == [];
  }

  /** A byte is all the stream is asked for until its eight bits are used up. */
  lemma {:induction false} WithinByte(p: Place, n: nat)
    requires p.used == 0 && 1 <= n <= 8 && p.Bits() != []
    ensures Taken(p, n) == Load(p.buffer, p.rest).(used := n % 8)
  {
    hide PendingBits, Load;
    if n > 1 {
      WithinByte(p, n - 1);
    }
  }

  /** After the last bits of the data the reader has taken in all of it, and nothing of
      what follows, a byte stuffed after the last one included. */
  lemma {:induction false} ReadsThrough(p: Place, data: seq<byte>, tail: seq<byte>, n: nat)
    requires p.used == 0 && data != [] && ComesNext(p, data, tail)
    requires 8 * (|data| - 1) < n <= 8 * |data| && n <= |p.Bits()|
    ensures Taken(p, n).rest == Unread(data, tail)
    decreases |data|
  {
    hide PendingBits, Load, ComesNext, Behind, Step, Taken;
    LoadsFirst(p, data, tail);
    var q := Place(0, data[0], Behind(data, tail));
    BehindIs(data, tail, q);
    if |data| == 1 {
      WithinByte(p, n);
    } else {
      WithinByte(p, 8);
      TakenBits(p, 8);
      TakenTwice(p, 8, n - 8);
      assert data[1..][|data[1..]| - 1] == data[|data| - 1];
      ReadsThrough(q, data[1..], tail, n - 8);
    }
  }

  class BitReader {
    const stream: seq<byte>
    var pos: nat
    var eof: bool
    var buffer: byte
    var lastByte: byte
    var bufferPtr: nat

    /** A place that the reader has been at, for the record. */
    ghost var mark: Place

    ghost predicate InStream()
      reads this
    {
      pos <= |stream| && bufferPtr < 8 && (eof ==> pos == |stream|)
    }

    /** Until the end of the stream is hit, bits have been taken one by one since `mark`. */
    ghost predicate Valid()
      reads this
    {
      InStream() && if eof then bufferPtr == 0 else Reaches(mark, Here())
    }

    ghost function Here(): Place
      requires InStream()
      reads this
    {
      Place(bufferPtr, buffer, stream[pos..])
    }

    ghost method SetMark()
      requires InStream() && (eof ==> bufferPtr == 0)
      modifies this`mark
      ensures Valid() && mark == Here()
    {
      mark := Here();
      assert Taken(mark, 0) == mark;
    }

    /** The bits still to come: those left in the buffer, then the unstuffed rest. */
    ghost function Pending(): seq<bool>
      requires InStream()
      reads this
    {
      PendingBits(bufferPtr, buffer, stream[pos..])
    }

    constructor (stream: seq<byte>)
      ensures Valid() && this.stream == stream && pos == 0 && Pending() == BitsOf(Unstuff(0, stream))
    {
      this.stream := stream;
      pos, eof, buffer, lastByte, bufferPtr := 0, false, 0, 0, 0;
      mark := Place(0, 0, stream);
      new;
      assert Taken(mark, 0) == mark && stream[0..] == stream;
    }

    /** The stream's own `get`: past the end it reports -1, which is stored as 255. */
    method Get() returns (b: byte)
      requires InStream()
      modifies this`pos, this`eof
      ensures InStream()
      ensures if old(pos) < |stream| then b == stream[old(pos)] && pos == old(pos) + 1 && eof == old(eof)
              else b == 255 && pos == old(pos) && eof
    {
      if pos < |stream| {
        b := stream[pos];
        pos := pos + 1;
      } else {
        b, eof := 255, true;
      }
    }

    method GetBit() returns (bit: bool, ok: bool)
      requires Valid()
      modifies this
      ensures Valid() && mark == old(mark) && (ok ==> eof == old(eof))
      ensures ok <==> old(Pending()) != []
      ensures ok ==> bit == old(Pending())[0] && Pending() == old(Pending())[1..]
      ensures !ok ==> Pending() == []
    {
      hide BitsOf, Unstuff, ByteBits, Shr, Reaches;
      ghost var from := Here();
      if bufferPtr == 0 {
        Refill();
        if eof {
          return false, false;
        }
      }
      TakeOneBit(bufferPtr, buffer, stream[pos..]);
      ReachesNext(mark, from);
      bit := Shr(buffer, 7 - bufferPtr) % 2 == 1;
      bufferPtr := (bufferPtr + 1) % 8;
      ok := true;
    }

    /** Loads the next data byte, skipping a byte stuffed after 0xFF. */
    method Refill()
      requires InStream() && bufferPtr == 0
      modifies this`pos, this`eof, this`lastByte, this`buffer
      ensures InStream() && (!eof ==> Here() == Load(old(buffer), old(stream[pos..])))
      ensures eof <==> old(Pending()) == []
      ensures eof ==> Pending() == []
      ensures !eof ==> old(Pending()) == BufferedBits(0, buffer, stream[pos..])
    {
      lastByte := buffer;
      buffer := Get();
      if lastByte == 255 && buffer == 0 {
        buffer := Get();
      }
    }

    method GetBits(cnt: nat) returns (r: GetResult)
      requires Valid()
      modifies this
      ensures Valid() && mark == old(mark) && (r.Got? ==> eof == old(eof))
      ensures r.WrongCount? <==> cnt > 16
      ensures r.WrongCount? ==> Pending() == old(Pending())
      ensures r.NoMoreBits? <==> cnt <= 16 && |old(Pending())| < cnt
      ensures r.Got? ==> Pending() == old(Pending())[cnt..] && r.value == Value(old(Pending())[..cnt])
      ensures r.Got? ==> r.firstBit == (cnt == 0 || old(Pending())[0])
    {
      hide PendingBits;
      if cnt > 16 {
        return WrongCount;
      }
      if cnt == 0 {
        assert Pending()[..0] == [];
        return Got(0, true);
      }
      ghost var bits := Pending();
      var bit, ok := GetBit();
      if !ok {
        return NoMoreBits;
      }
      var result := if bit then 1 else 0;
      var firstBit := result != 0;
      for i := 0 to cnt - 1
        invariant Valid() && mark == old(mark) && eof == old(eof) && i + 1 <= |bits| && Pending() == bits[i + 1..]
        invariant result == Int16(Value(bits[..i + 1])) && Value(bits[..i + 1]) < 0x1_0000
      {
        assert bits[i + 1..] != [] ==> bits[i + 1..][1..] == bits[i + 2..];
        bit, ok := GetBit();
        if !ok {
          return NoMoreBits;
        }
        Int16Step(bits, i + 1);
        result := Int16(2 * result);
        result := result + if bit then 1 else 0;
      }
      assert bits[..cnt - 1 + 1] == bits[..cnt];
      Int16Back(Value(bits[..cnt]));
      return Got(result % 0x1_0000, firstBit);
    }
  }
}
