/** A writer of numbers and strings into a part of a byte buffer that it never leaves. */
module BinaryWriters {

  type Byte = x: int | 0 <= x < 256

  datatype Order = Big | Little

  // --- numbers ---------------------------------------------------------------

  function Pow(k: nat): (m: nat)
    ensures m > 0
  {
    if k == 0 then 1 else 0x100 * Pow(k - 1)
  }

  /** The last `k` digits of a number to base 256, the highest first. */
  function Digits(k: nat, v: nat): (bs: seq<Byte>)
    ensures |bs| == k
  {
    if k == 0 then [] else Digits(k - 1, v / 0x100) + [v % 0x100]
  }

  /** What is left of a number without its last `k` digits. */
  function High(k: nat, v: nat): nat {
    if k == 0 then v else High(k - 1, v / 0x100)
  }

  function Value(bs: seq<Byte>): nat {
    if bs == [] then 0 else Value(bs[..|bs| - 1]) * 0x100 + bs[|bs| - 1]
  }

  function Uint16(order: Order, v: nat): (bs: seq<Byte>)
    ensures |bs| == 2
  {
    var bs := Digits(2, v);
    if order == Big then bs else [bs[1], bs[0]]
  }

  function Uint32(order: Order, v: nat): (bs: seq<Byte>)
    ensures |bs| == 4
  {
    var bs := Digits(4, v);
    if order == Big then bs else [bs[3], bs[2], bs[1], bs[0]]
  }

  lemma Powers()
    ensures Pow(2) == 0x1_0000 && Pow(4) == 0x1_0000_0000
  {
    assert Pow(1) == 0x100 && Pow(3) == 0x100_0000;
  }

  lemma {:induction false} ValueBound(bs: seq<Byte>)
    ensures Value(bs) < Pow(|bs|)
  {
    if bs != [] {
      ValueBound(bs[..|bs| - 1]);
    }
  }

  /** The digits stand for the number, up to what is left of it above them. */
  lemma {:induction false} DigitsValue(k: nat, v: nat)
    ensures v == High(k, v) * Pow(k) + Value(Digits(k, v))
  {
    if k > 0 {
      DigitsValue(k - 1, v / 0x100);
      var (h, m, low) := (High(k - 1, v / 0x100), Pow(k - 1), Digits(k - 1, v / 0x100));
      assert Digits(k, v)[..k - 1] == low;
      assert v == (h * m + Value(low)) * 0x100 + v % 0x100;
      Carried(h, m, Value(low));
    }
  }

  lemma Carried(h: nat, m: nat, low: nat)
    ensures (h * m + low) * 0x100 == h * (0x100 * m) + low * 0x100
  {
  }

  /** A number with no more than `k` digits is what they stand for. */
  lemma {:induction false} SmallValue(k: nat, v: nat)
    requires v < Pow(k)
    ensures Value(Digits(k, v)) == v
  {
    if k > 0 {
      SmallValue(k - 1, v / 0x100);
      assert Digits(k, v)[..k - 1] == Digits(k - 1, v / 0x100);
    }
  }

  /** And digits are those of the number they stand for. */
  lemma {:induction false} ValueDigits(bs: seq<Byte>)
    ensures Digits(|bs|, Value(bs)) == bs
  {
    if bs != [] {
      ValueDigits(bs[..|bs| - 1]);
    }
  }

  /** What is written is the low 16 bits of the number, with the high digit first or last. */
  lemma Uint16Value(order: Order, v: nat)
    ensures var bs := Uint16(order, v);
            v == High(2, v) * 0x1_0000 + Value(if order == Big then bs else [bs[1], bs[0]])
  {
    Powers();
    DigitsValue(2, v);
    var bs := Digits(2, v);
    assert bs == [bs[0], bs[1]];
  }

  /** And so for 32 bits. */
  lemma Uint32Value(order: Order, v: nat)
    ensures var bs := Uint32(order, v);
            v == High(4, v) * 0x1_0000_0000 + Value(if order == Big then bs else [bs[3], bs[2], bs[1], bs[0]])
  {
    Powers();
    DigitsValue(4, v);
    var bs := Digits(4, v);
    assert bs == [bs[0], bs[1], bs[2], bs[3]];
  }

  /** A string after its length, of which only the low 16 bits are written. */
  function Sized(order: Order, s: seq<Byte>): seq<Byte> {
    Uint16(order, |s| % 0x1_0000) + s
  }

  /** `bs` written over `s` from position `at`. */
  function Patched(s: seq<Byte>, at: nat, bs: seq<Byte>): seq<Byte>
    requires at + |bs| <= |s|
  {
    s[..at] + bs + s[at + |bs|..]
  }

  /**
   What writing `bs` at `at` into `s` leaves: all of it when there is room
   before `end`, and otherwise some beginning of it; nothing else changes.
   */
  ghost predicate Wrote(s: seq<Byte>, at: nat, s': seq<Byte>, at': nat, end: nat, bs: seq<Byte>, ok: bool) {
    && at <= at' <= at + |bs| && at' <= end <= |s|
    && (ok <==> at + |bs| <= end) && (ok ==> at' == at + |bs|)
    && s' == Patched(s, at, bs[..at' - at])
  }

  /** Writing goes on after a write that found room. */
  lemma WroteMore(s: seq<Byte>, at: nat, s1: seq<Byte>, at1: nat, s2: seq<Byte>, at2: nat, end: nat, b1: seq<Byte>, b2: seq<Byte>, ok: bool)
    requires Wrote(s, at, s1, at1, end, b1, true) && Wrote(s1, at1, s2, at2, end, b2, ok)
    ensures Wrote(s, at, s2, at2, end, b1 + b2, ok)
  {
    var k := at2 - at1;
    assert (b1 + b2)[..at2 - at] == b1 + b2[..k];
    assert b1[..at1 - at] == b1;
  }

  class BinaryWriter {
    const data: array<Byte>
    const begin: nat
    const end: nat
    var current: nat
    var order: Order
    /** What the buffer held at first, all that has been written since, and whether the buffer was exhausted. */
    ghost const base: seq<Byte>
    ghost var log: seq<Byte>
    ghost var thrown: bool

    ghost predicate Valid()
      reads this, data
    {
      && begin <= current <= end <= data.Length == |base|
      && Wrote(base, begin, data[..], current, end, log, !thrown)
    }

    constructor (data: array<Byte>, begin: nat, end: nat, native: Order)
      requires begin <= end <= data.Length
      ensures Valid() && this.data == data && this.begin == begin && this.end == end && order == native
      ensures log == [] && !thrown && base == data[..] && current == begin
    {
      this.data, this.begin, this.end, base := data, begin, end, data[..];
      current, order, log, thrown := begin, native, [], false;
    }

    method SetByteOrder(o: Order)
      requires Valid()
      modifies this`order
      ensures Valid() && order == o
    {
      order := o;
    }

    /** `memcpy` to the current position. */
    method Copy(bs: seq<Byte>)
      requires current + |bs| <= data.Length
      modifies data
      ensures data[..] == Patched(old(data[..]), current, bs)
    {
      for i := 0 to |bs|
        invariant data[..] == Patched(old(data[..]), current, bs[..i])
      {
        data[current + i] := bs[i];
        assert bs[..i + 1] == bs[..i] + [bs[i]];
      }
      assert bs[..|bs|] == bs;
    }

    /** The check and copy that every write makes. */
    method WriteBytes(bs: seq<Byte>) returns (ok: bool)
      requires Valid() && !thrown
      modifies this`current, this`log, this`thrown, data
      ensures Valid() && log == old(log) + bs && ok == !thrown
    {
      ghost var before := data[..];
      ok := current + |bs| <= end;
      if ok {
        Copy(bs);
        assert bs[..|bs|] == bs;
        current := current + |bs|;
      } else {
        assert before == Patched(before, current, bs[..0]);
      }
      WroteMore(base, begin, before, old(current), data[..], current, end, log, bs, ok);
      log := log + bs;
      thrown := !ok;
    }

    method WriteUint16(v: nat) returns (ok: bool)
      requires Valid() && !thrown
      modifies this`current, this`log, this`thrown, data
      ensures Valid() && log == old(log) + Uint16(order, v) && ok == !thrown
    {
      ok := WriteBytes(Uint16(order, v));
    }

    method WriteUint32(v: nat) returns (ok: bool)
      requires Valid() && !thrown
      modifies this`current, this`log, this`thrown, data
      ensures Valid() && log == old(log) + Uint32(order, v) && ok == !thrown
    {
      ok := WriteBytes(Uint32(order, v));
    }

    method WriteStringWithSize(s: seq<Byte>) returns (ok: bool)
      requires Valid() && !thrown
      modifies this`current, this`log, this`thrown, data
      ensures Valid() && ok == !thrown
      ensures log <= old(log) + Sized(order, s) && (ok ==> log == old(log) + Sized(order, s))
    {
      ok := WriteUint16(|s| % 0x1_0000);
      if ok {
        ok := WriteBytes(s);
        assert log == old(log) + Sized(order, s);
      }
    }

    /** The count is exact: it is the length of all that was written. */
    method BytesWritten() returns (n: nat)
      requires Valid()
      ensures n <= end - begin && n <= |log| && (!thrown ==> n == |log|)
    {
      n := current - begin;
    }
  }
}
