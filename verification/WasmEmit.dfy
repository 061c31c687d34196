/** The WebAssembly encoder's buffer: bytes appended, sizes patched in place, one sticky overflow flag. */
module WasmEmit {
  import opened Leb

  const SIZE_WIDTH := 5

  const END: Byte := 0x0B

  /**
   Well-bracketed output: bytes; contents after a slot holding their length;
   a function body, which such a slot and an END frame; and a block, loop or
   if, opened by an opcode and a type and closed by an END.
   */
  datatype Item = Raw(bytes: seq<Byte>) | Sized(contents: seq<Item>) | Body(contents: seq<Item>)
                | Block(opcode: Byte, result: Byte, contents: seq<Item>)

  function Layout(items: seq<Item>): seq<Byte> {
    if items == [] then [] else LayoutOne(items[0]) + Layout(items[1..])
  }

  function LayoutOne(i: Item): seq<Byte> {
    match i
    case Raw(bytes) => bytes
    case Sized(contents) => WithSize(Layout(contents))
    case Body(contents) => WithSize(Layout(contents) + [END])
    case Block(opcode, result, contents) => [opcode, result] + (Layout(contents) + [END])
  }

  function WithSize(s: seq<Byte>): seq<Byte> {
    Padded(|s|) + s
  }

  /** Every slot's contents are short enough for a 32-bit size. */
  predicate Short(items: seq<Item>) {
    items != [] ==> ShortOne(items[0]) && Short(items[1..])
  }

  predicate ShortOne(i: Item) {
    match i
    case Raw(_) => true
    case Sized(contents) => |Layout(contents)| <= 0xFFFF_FFFF && Short(contents)
    case Body(contents) => |Layout(contents)| + 1 <= 0xFFFF_FFFF && Short(contents)
    case Block(_, _, contents) => Short(contents)
  }

  /**
   The bytes are the items' and then `rest`: every slot, at every depth,
   decodes to the exact length of its contents, which follow it, and every
   body and block ends in an END.
   */
  predicate SlotsExact(items: seq<Item>, s: seq<Byte>, rest: seq<Byte>)
    decreases items
  {
    if items == [] then s == rest
    else match items[0]
      case Raw(bytes) => bytes <= s && SlotsExact(items[1..], s[|bytes|..], rest)
      case Sized(contents) =>
        var d := DecodeUnsigned(s);
        SlotFits(s, d) && SlotsExact(contents, d.rest[..d.v], []) && SlotsExact(items[1..], d.rest[d.v..], rest)
      case Body(contents) =>
        var d := DecodeUnsigned(s);
        SlotFits(s, d) && SlotsExact(contents, d.rest[..d.v], [0x0B]) && SlotsExact(items[1..], d.rest[d.v..], rest)
      case Block(opcode, result, contents) =>
        var n := 2 + |Layout(contents)|;
        && n < |s| && s[..2] == [opcode, result] && s[n] == 0x0B
        && SlotsExact(contents, s[2..n], []) && SlotsExact(items[1..], s[n + 1..], rest)
  }

  predicate SlotFits(s: seq<Byte>, d: Decoded) {
    d.Decoded? && 0 <= d.v <= |d.rest| && |s| == SIZE_WIDTH + |d.rest|
  }

  lemma {:induction false} LayoutIsExact(items: seq<Item>, rest: seq<Byte>)
    requires Short(items)
    ensures SlotsExact(items, Layout(items) + rest, rest)
    decreases items
  {
    hide Layout, LayoutOne, Padded, WithSize;
    if items == [] {
      assert Layout(items) + rest == rest by { LayoutOfNothing(); }
    } else {
      var tail := Layout(items[1..]) + rest;
      LayoutIsExact(items[1..], rest);
      LayoutSplits(items, rest);
      match items[0] {
        case Raw(bytes) => assert (bytes + tail)[|bytes|..] == tail;
        case Sized(contents) =>
          LayoutIsExact(contents, []);
          SlotDecodes(Layout(contents), tail);
        case Body(contents) =>
          LayoutIsExact(contents, [END]);
          SlotDecodes(Layout(contents) + [END], tail);
        case Block(opcode, result, contents) =>
          LayoutIsExact(contents, []);
          BlockSplits(opcode, result, Layout(contents), tail);
      }
    }
  }

  lemma LayoutOfNothing()
    ensures Layout([]) == []
  {
  }

  lemma LayoutSplits(items: seq<Item>, rest: seq<Byte>)
    requires items != []
    ensures Layout(items) + rest == LayoutOne(items[0]) + (Layout(items[1..]) + rest)
    ensures LayoutOne(items[0]) == match items[0]
      case Raw(bytes) => bytes
      case Sized(contents) => WithSize(Layout(contents))
      case Body(contents) => WithSize(Layout(contents) + [END])
      case Block(opcode, result, contents) => [opcode, result] + (Layout(contents) + [END])
  {
    hide WithSize;
  }

  lemma SlotDecodes(inner: seq<Byte>, tail: seq<Byte>)
    requires |inner| <= 0xFFFF_FFFF
    ensures inner + [] == inner && (inner + tail)[..|inner|] == inner && (inner + tail)[|inner|..] == tail
    ensures DecodeUnsigned(WithSize(inner) + tail) == Decoded(|inner|, inner + tail)
    ensures SlotFits(WithSize(inner) + tail, Decoded(|inner|, inner + tail))
  {
    PaddedRoundTrip(|inner|, inner + tail);
    assert WithSize(inner) + tail == Padded(|inner|) + (inner + tail);
  }

  lemma BlockSplits(opcode: Byte, result: Byte, inner: seq<Byte>, tail: seq<Byte>)
    ensures var s, n := [opcode, result] + (inner + [END]) + tail, 2 + |inner|;
      n < |s| && s[..2] == [opcode, result] && s[2..n] == inner && s[n] == END && s[n + 1..] == tail
    ensures inner + [] == inner
  {
  }

  lemma Joined(start: seq<Byte>, done: seq<Byte>, b: Byte, rest: seq<Byte>)
    ensures done + ([b] + rest) == (done + [b]) + rest && (start + done) + [b] == start + (done + [b])
    ensures rest == [] ==> done + [b] == (done + [b]) + rest
  {
  }

  class Buffer {
    const buf: array<Byte>
    var len: nat
    var overflow: bool
    var sizesOpened: nat
    var sizesClosed: nat
    var blocksOpened: nat
    var blocksClosed: nat
    var bodiesOpened: nat
    var bodiesClosed: nat

    ghost predicate Valid()
      reads this
    {
      len <= buf.Length
    }

    function Out(): seq<Byte>
      requires len <= buf.Length
      reads this, buf
    {
      buf[..len]
    }

    constructor (capacity: nat)
      ensures Valid() && Out() == [] && buf.Length == capacity && IsOk() && fresh(buf)
    {
      buf := new Byte[capacity](_ => 0);
      len, overflow, sizesOpened, sizesClosed := 0, false, 0, 0;
      blocksOpened, blocksClosed, bodiesOpened, bodiesClosed := 0, 0, 0, 0;
    }

    /** How many slots, blocks and bodies are open. */
    function Open(): (int, int, int)
      reads this
    {
      (sizesOpened - sizesClosed, blocksOpened - blocksClosed, bodiesOpened - bodiesClosed)
    }

    /** Nothing was dropped and everything opened was closed. */
    predicate IsOk()
      reads this
    {
      !overflow && sizesOpened == sizesClosed && blocksOpened == blocksClosed && bodiesOpened == bodiesClosed
    }

    method PutByte(b: Byte)
      requires Valid()
      modifies this`len, this`overflow, buf
      ensures Valid() && overflow == (old(overflow) || old(len) + 1 > buf.Length)
      ensures Out() == if overflow then old(Out()) else old(Out()) + [b]
    {
      if overflow { return; }
      if len + 1 > buf.Length {
        overflow := true;
        return;
      }
      buf[len] := b;
      len := len + 1;
    }

    method PutBytes(p: seq<Byte>)
      requires Valid()
      modifies this`len, this`overflow, buf
      ensures Valid() && overflow == (old(overflow) || old(len) + |p| > buf.Length)
      ensures Out() == if overflow then old(Out()) else old(Out()) + p
    {
      if overflow { return; }
      if len + |p| > buf.Length {
        overflow := true;
        return;
      }
      for i := 0 to |p|
        invariant len == old(len) && len + |p| <= buf.Length && !overflow
        invariant buf[..len] == old(Out())
        invariant forall k | 0 <= k < i :: buf[len + k] == p[k]
      {
        buf[len + i] := p[i];
      }
      assert buf[..len + |p|] == buf[..len] + p;
      len := len + |p|;
    }

    method PutU32(value: nat)
      requires Valid()
      modifies this`len, this`overflow, buf
      ensures Valid() && overflow == (old(overflow) || old(len) + |Unsigned(value)| > buf.Length)
      ensures !overflow ==> Out() == old(Out()) + Unsigned(value)
    {
      hide Unsigned;
      ghost var all, start := Unsigned(value), Out();
      ghost var done: seq<Byte> := [];
      var v := value;
      UnsignedNext(v);
      while v >= 128
        invariant Valid() && all == done + Unsigned(v) && v >= 0
        invariant Unsigned(v) == if v < 128 then [v] else [v % 128 + 128] + Unsigned(v / 128)
        invariant overflow == (old(overflow) || old(len) + |done| > buf.Length)
        invariant !overflow ==> Out() == start + done
        decreases v
      {
        var b: Byte := v % 128 + 128;
        Joined(start, done, b, Unsigned(v / 128));
        PutByte(b);
        done := done + [b];
        v := v / 128;
        UnsignedNext(v);
      }
      Joined(start, done, v, []);
      PutByte(v);
    }

    method PutSigned(value: int)
      requires Valid()
      modifies this`len, this`overflow, buf
      ensures Valid() && overflow == (old(overflow) || old(len) + |Leb.Signed(value)| > buf.Length)
      ensures !overflow ==> Out() == old(Out()) + Leb.Signed(value)
    {
      hide Leb.Signed, Last;
      ghost var all, start := Leb.Signed(value), Out();
      ghost var done: seq<Byte> := [];
      var v := value;
      SignedNext(v);
      while !Last(v)
        invariant Valid() && all == done + Leb.Signed(v)
        invariant Leb.Signed(v) == if Last(v) then [v % 128] else [v % 128 + 128] + Leb.Signed(v / 128)
        invariant !Last(v) ==> Magnitude(v / 128) < Magnitude(v)
        invariant overflow == (old(overflow) || old(len) + |done| > buf.Length)
        invariant !overflow ==> Out() == start + done
        decreases Magnitude(v)
      {
        var b: Byte := v % 128 + 128;
        Joined(start, done, b, Leb.Signed(v / 128));
        PutByte(b);
        done := done + [b];
        v := v / 128;
        SignedNext(v);
      }
      Joined(start, done, v % 128, []);
      PutByte(v % 128);
    }

    /** Five bytes kept for a size. */
    method OpenSize() returns (at: nat)
      requires Valid()
      modifies this`len, this`overflow, this`sizesOpened, buf
      ensures Valid() && at == old(len) && sizesOpened == old(sizesOpened) + 1
      ensures overflow == (old(overflow) || old(len) + SIZE_WIDTH > buf.Length)
      ensures !overflow ==> Out() == old(Out()) + [0, 0, 0, 0, 0]
      ensures old(IsOk()) ==> !IsOk()
    {
      at := len;
      sizesOpened := sizesOpened + 1;
      for i := 0 to SIZE_WIDTH
        invariant Valid() && sizesOpened == old(sizesOpened) + 1 && overflow == (old(overflow) || old(len) + i > buf.Length)
        invariant !overflow ==> Out() == old(Out()) + seq(i, _ => 0)
      {
        assert seq(i, _ => 0) + [0] == seq(i + 1, _ => 0);
        PutByte(0);
      }
      assert seq(SIZE_WIDTH, _ => 0) == [0, 0, 0, 0, 0];
    }

    /** The slot patched with the length of what was written since it was opened. */
    method SizeEnd(at: nat)
      requires Valid()
      modifies this`overflow, this`sizesClosed, buf
      ensures Valid() && sizesClosed == old(sizesClosed) + 1
      ensures overflow == (old(overflow) || at + SIZE_WIDTH > len || len - (at + SIZE_WIDTH) > 0xFFFF_FFFF)
      ensures !overflow ==> Out() == old(Out())[..at] + Padded(len - (at + SIZE_WIDTH)) + old(Out())[at + SIZE_WIDTH..]
    {
      sizesClosed := sizesClosed + 1;
      if overflow { return; }
      var start := at + SIZE_WIDTH;
      if start > len || start > buf.Length {
        overflow := true;
        return;
      }
      if len - start > 0xFFFF_FFFF {
        overflow := true;
        return;
      }
      Patch(at, len - start);
    }

    /** A five-byte slot overwritten with a size, the loop over its bytes. */
    method Patch(at: nat, size: nat)
      requires Valid() && at + SIZE_WIDTH <= len && size <= 0xFFFF_FFFF
      modifies buf
      ensures Out() == old(Out())[..at] + Padded(size) + old(Out())[at + SIZE_WIDTH..]
    {
      hide Padded, LeftOf;
      ghost var before := Out();
      var length := size;
      assert length == LeftOf(size, 0) by { SizeStart(size); }
      for i := 0 to SIZE_WIDTH
        invariant i < SIZE_WIDTH ==> length == LeftOf(size, i)
        invariant forall k: nat | k < len :: buf[k] == if at <= k < at + i then Padded(size)[k - at] else before[k]
      {
        SizeDigit(size, i);
        buf[at + i] := if i != SIZE_WIDTH - 1 then length % 128 + 128 else length % 128;
        length := length / 128;
      }
      assert Out() == before[..at] + Padded(size) + before[at + SIZE_WIDTH..];
    }

    method BodyBegin() returns (at: nat)
      requires Valid()
      modifies this`len, this`overflow, this`sizesOpened, this`bodiesOpened, buf
      ensures Valid() && at == old(len) && sizesOpened == old(sizesOpened) + 1 && bodiesOpened == old(bodiesOpened) + 1
      ensures overflow == (old(overflow) || old(len) + SIZE_WIDTH > buf.Length)
      ensures !overflow ==> Out() == old(Out()) + [0, 0, 0, 0, 0]
      ensures IsOk() ==> old(sizesOpened < sizesClosed && bodiesOpened < bodiesClosed)
    {
      bodiesOpened := bodiesOpened + 1;
      at := OpenSize();
    }

    /** The END every body needs, and then its size. */
    method BodyEnd(at: nat)
      requires Valid()
      modifies this`len, this`overflow, this`sizesClosed, this`bodiesClosed, buf
      ensures Valid() && sizesClosed == old(sizesClosed) + 1 && bodiesClosed == old(bodiesClosed) + 1
      ensures var n := old(len) + 1;
        overflow == (old(overflow) || n > buf.Length || at + SIZE_WIDTH > n || n - (at + SIZE_WIDTH) > 0xFFFF_FFFF)
      ensures !overflow ==> len == old(len) + 1
      ensures !overflow ==> var all := old(Out()) + [0x0B];
        Out() == all[..at] + Padded(len - (at + SIZE_WIDTH)) + all[at + SIZE_WIDTH..]
    {
      PutByte(END);
      bodiesClosed := bodiesClosed + 1;
      SizeEnd(at);
    }

    method OpenBlock(opcode: Byte, result: Byte)
      requires Valid()
      modifies this`len, this`overflow, this`blocksOpened, buf
      ensures Valid() && blocksOpened == old(blocksOpened) + 1
      ensures overflow == (old(overflow) || old(len) + 2 > buf.Length)
      ensures !overflow ==> Out() == old(Out()) + [opcode, result]
      ensures old(IsOk()) ==> !IsOk()
    {
      blocksOpened := blocksOpened + 1;
      PutByte(opcode);
      PutByte(result);
    }

    method End()
      requires Valid()
      modifies this`len, this`overflow, this`blocksClosed, buf
      ensures Valid() && blocksClosed == old(blocksClosed) + 1
      ensures overflow == (old(overflow) || old(len) + 1 > buf.Length)
      ensures !overflow ==> Out() == old(Out()) + [0x0B]
      ensures old(IsOk()) ==> !IsOk()
    {
      blocksClosed := blocksClosed + 1;
      PutByte(END);
    }

    /**
     Any well-bracketed output, slots opened before their contents and patched
     after. The buffer is sound afterwards exactly when it was and all of it fits.
     */
    method Emit(items: seq<Item>)
      requires Valid()
      modifies this, buf
      ensures Valid() && (overflow <==> old(overflow) || old(len) + |Layout(items)| > buf.Length || !Short(items))
      ensures !overflow ==> Out() == old(Out()) + Layout(items)
      ensures Open() == old(Open())
      ensures IsOk() <==> old(IsOk()) && old(len) + |Layout(items)| <= buf.Length && Short(items)
      decreases items, 0
    {
      if items == [] { return; }
      hide LayoutOne, ShortOne;
      EmitOne(items[0]);
      ghost var half := Out();
      Emit(items[1..]);
      assert !overflow ==> Out() == old(Out()) + (LayoutOne(items[0]) + Layout(items[1..])) by {
        if !overflow { assert half == old(Out()) + LayoutOne(items[0]); }
      }
    }

    method EmitOne(item: Item)
      requires Valid()
      modifies this, buf
      ensures Valid() && (overflow <==> old(overflow) || old(len) + |LayoutOne(item)| > buf.Length || !ShortOne(item))
      ensures !overflow ==> Out() == old(Out()) + LayoutOne(item)
      ensures Open() == old(Open())
      decreases item, 0
    {
      match item {
        case Raw(bytes) =>
          PutBytes(bytes);
        case Sized(contents) =>
          EmitSized(contents);
        case Body(contents) =>
          EmitBody(contents);
        case Block(opcode, result, contents) =>
          EmitBlock(opcode, result, contents);
      }
    }

    method EmitSized(contents: seq<Item>)
      requires Valid()
      modifies this, buf
      ensures Valid() && Open() == old(Open())
      ensures var s := Layout(contents);
        overflow <==> old(overflow) || old(len) + |WithSize(s)| > buf.Length || |s| > 0xFFFF_FFFF || !Short(contents)
      ensures !overflow ==> Out() == old(Out()) + WithSize(Layout(contents))
      decreases contents, 1
    {
      var at := OpenSize();
      Emit(contents);
      ghost var full := Out();
      SizeEnd(at);
      if !overflow { Patched(old(Out()), Layout(contents), full, at); }
    }

    method EmitBody(contents: seq<Item>)
      requires Valid()
      modifies this, buf
      ensures Valid() && Open() == old(Open())
      ensures var s := Layout(contents) + [END];
        overflow <==> old(overflow) || old(len) + |WithSize(s)| > buf.Length || |s| > 0xFFFF_FFFF || !Short(contents)
      ensures !overflow ==> Out() == old(Out()) + WithSize(Layout(contents) + [END])
      decreases contents, 1
    {
      var at := BodyBegin();
      Emit(contents);
      ghost var full := Out();
      BodyEnd(at);
      if !overflow {
        ghost var inner := Layout(contents);
        assert full + [END] == old(Out()) + [0, 0, 0, 0, 0] + (inner + [END]);
        Patched(old(Out()), inner + [END], full + [END], at);
      }
    }

    method EmitBlock(opcode: Byte, result: Byte, contents: seq<Item>)
      requires Valid()
      modifies this, buf
      ensures Valid() && Open() == old(Open())
      ensures overflow <==> old(overflow) || old(len) + 2 + |Layout(contents)| + 1 > buf.Length || !Short(contents)
      ensures !overflow ==> Out() == old(Out()) + ([opcode, result] + (Layout(contents) + [END]))
      decreases contents, 1
    {
      OpenBlock(opcode, result);
      Emit(contents);
      End();
    }
  }

  lemma Patched(before: seq<Byte>, contents: seq<Byte>, full: seq<Byte>, at: nat)
    requires at == |before| && full == before + [0, 0, 0, 0, 0] + contents
    ensures |full| - (at + SIZE_WIDTH) == |contents|
    ensures full[..at] + Padded(|contents|) + full[at + SIZE_WIDTH..] == before + WithSize(contents)
  {
    assert full[..at] == before;
    assert full[at + SIZE_WIDTH..] == contents;
  }

  /** What is left of a size after i bytes of it were written. */
  function LeftOf(size: nat, i: nat): nat {
    match i
    case 0 => size
    case 1 => size / 128
    case 2 => size / 16384
    case 3 => size / 2097152
    case _ => size / 268435456
  }

  lemma SizeStart(size: nat)
    ensures LeftOf(size, 0) == size
  {
  }

  lemma SizeDigit(size: nat, i: nat)
    requires i < 5 && size <= 0xFFFF_FFFF
    ensures (if i != 4 then LeftOf(size, i) % 128 + 128 else LeftOf(size, i) % 128) == Padded(size)[i]
    ensures i < 4 ==> LeftOf(size, i) / 128 == LeftOf(size, i + 1)
  {
    PaddedDigits(size);
  }
}
