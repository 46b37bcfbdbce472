/** The binary form of an IP configuration: written by the builder, and read back here to show that nothing is lost. */
module IpConfigs {

  import opened Sequences
  import opened BinaryWriters

  type Text = seq<Byte>

  datatype Assignment = Static | Dhcp | Unknown

  datatype Config = Config(
    version: nat,
    assignment: Assignment,
    address: Text,
    prefixLength: nat,
    gateway: Text,
    dns: seq<Text>,
    id: nat)

  /** The characters of a string of the program. */
  function Ascii(s: string): (t: Text)
    ensures |t| == |s| && forall i :: 0 <= i < |s| && s[i] as int < 256 ==> t[i] as char == s[i]
  {
    seq(|s|, i requires 0 <= i < |s| => s[i] as int % 256)
  }

  function Name(a: Assignment): Text {
    match a
    case Static => Ascii("STATIC")
    case Dhcp => Ascii("DHCP")
    case Unknown => Ascii("UNKNOWN")
  }

  /** The file is a row of numbers and strings. */
  datatype Field = Number(v: nat) | Str(s: Text)

  function Bytes(f: Field): Text {
    match f
    case Number(v) => Uint32(Big, v)
    case Str(s) => Sized(Big, s)
  }

  function Flat(fs: seq<Field>): Text {
    if fs == [] then [] else Bytes(fs[0]) + Flat(fs[1..])
  }

  lemma {:induction false} FlatAppend(a: seq<Field>, b: seq<Field>)
    ensures Flat(a + b) == Flat(a) + Flat(b)
  {
    if a == [] {
      assert a + b == b;
    } else {
      assert (a + b)[1..] == a[1..] + b;
      FlatAppend(a[1..], b);
    }
  }

  lemma FlatThree(a: seq<Field>, b: seq<Field>, c: seq<Field>)
    ensures Flat(a + b + c) == Flat(a) + (Flat(b) + Flat(c))
  {
    FlatAppend(a + b, c);
    FlatAppend(a, b);
    Reassociate(Flat(a), Flat(b), Flat(c));
  }

  function Head(c: Config): seq<Field> {
    [Number(c.version),
     Str(Ascii("ipAssignment")), Str(Name(c.assignment)),
     Str(Ascii("linkAddress")), Str(c.address), Number(c.prefixLength),
     Str(Ascii("gateway")), Number(0), Number(1), Str(c.gateway),
     Str(Ascii("dns"))]
  }

  function Servers(dns: seq<Text>): seq<Field> {
    seq(|dns|, i requires 0 <= i < |dns| => Str(dns[i]))
  }

  function Tail(c: Config): seq<Field> {
    [Str(Ascii("id")), Number(c.id), Str(Ascii("eos"))]
  }

  function Encode(c: Config): Text {
    Flat(Head(c) + Servers(c.dns) + Tail(c))
  }

  // --- writing -------------------------------------------------------------

  /** What writing leaves: all of `bs`, or a beginning of it and no room for the rest. */
  twostate predicate Appended(w: BinaryWriter, bs: Text, ok: bool)
    reads w, w.data
  {
    && w.Valid() && w.order == Big && ok == !w.thrown
    && w.log <= old(w.log) + bs && (ok ==> w.log == old(w.log) + bs)
  }

  method WriteField(w: BinaryWriter, f: Field) returns (ok: bool)
    requires w.Valid() && !w.thrown && w.order == Big
    modifies w`current, w`log, w`thrown, w.data
    ensures Appended(w, Bytes(f), ok)
  {
    match f
    case Number(v) => ok := w.WriteUint32(v);
    case Str(s) => ok := w.WriteStringWithSize(s);
  }

  method WriteAll(w: BinaryWriter, fs: seq<Field>) returns (ok: bool)
    requires w.Valid() && !w.thrown && w.order == Big
    modifies w`current, w`log, w`thrown, w.data
    ensures Appended(w, Flat(fs), ok)
  {
    ok := true;
    var i := 0;
    ghost var all := w.log + Flat(fs);
    assert fs[0..] == fs;
    while ok && i < |fs|
      invariant i <= |fs| && w.Valid() && w.order == Big && ok == !w.thrown && w.log <= all
      invariant ok ==> w.log + Flat(fs[i..]) == all
    {
      FlatFirst(w.log, fs, i);
      ok := WriteField(w, fs[i]);
      i := i + 1;
    }
    assert ok ==> Flat(fs[i..]) == [];
  }

  /** Field `i` comes first among those from `i` on. */
  lemma FlatFirst(log: Text, fs: seq<Field>, i: nat)
    requires i < |fs|
    ensures log + Flat(fs[i..]) == (log + Bytes(fs[i])) + Flat(fs[i + 1..])
    ensures log + Bytes(fs[i]) <= log + Flat(fs[i..])
  {
    assert fs[i..][1..] == fs[i + 1..];
    Reassociate(log, Bytes(fs[i]), Flat(fs[i + 1..]));
  }

  class IpConfigBuilder {
    var config: Config

    constructor (c: Config)
      ensures config == c
    {
      config := c;
    }

    /** The values in the order in which they are written. */
    method Fields() returns (fs: seq<Field>)
      ensures fs == Head(config) + Servers(config.dns) + Tail(config)
    {
      var assignment := match config.assignment case Static => "STATIC" case Dhcp => "DHCP" case Unknown => "UNKNOWN";
      var isDefaultGateway, gatewayIsPresent := 0, 1;
      var head := [Number(config.version),
                   Str(Ascii("ipAssignment")), Str(Ascii(assignment)),
                   Str(Ascii("linkAddress")), Str(config.address), Number(config.prefixLength),
                   Str(Ascii("gateway")), Number(isDefaultGateway), Number(gatewayIsPresent), Str(config.gateway),
                   Str(Ascii("dns"))];
      var servers: seq<Field> := [];
      for i := 0 to |config.dns|
        invariant servers == Servers(config.dns[..i])
      {
        servers := servers + [Str(config.dns[i])];
      }
      assert config.dns[..|config.dns|] == config.dns;
      fs := head + servers + [Str(Ascii("id")), Number(config.id), Str(Ascii("eos"))];
    }

    /**
     Writes the configuration behind what the writer holds already: it succeeds
     exactly when there is room, and nothing outside the room is touched in any case.
     */
    method Write(w: BinaryWriter) returns (ok: bool, n: nat)
      requires w.Valid() && !w.thrown
      modifies w, w.data
      ensures w.Valid() && (ok <==> |old(w.log)| + |Encode(config)| <= w.end - w.begin)
      ensures ok ==> n == |old(w.log)| + |Encode(config)| && w.data[..] == Patched(w.base, w.begin, old(w.log) + Encode(config))
      ensures forall i :: 0 <= i < w.data.Length && !(w.begin <= i < w.end) ==> w.data[i] == w.base[i]
    {
      w.SetByteOrder(Big);
      var fields := Fields();
      ok := WriteAll(w, fields);
      n := w.BytesWritten();
      assert ok ==> w.log[..n] == old(w.log) + Encode(config);
    }
  }
}
