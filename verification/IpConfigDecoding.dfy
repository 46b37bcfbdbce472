/** Reading an IP configuration back, and when that is possible. */
module IpConfigDecoding {

  import opened Wrappers
  import opened Sequences
  import opened BinaryWriters
  import opened IpConfigs

  datatype Kind = ANumber | AString

  function KindOf(f: Field): Kind {
    if f.Number? then ANumber else AString
  }

  /** Numbers of 32 bits, and strings whose length fits in 16. */
  predicate Fits(f: Field) {
    match f
    case Number(v) => v < 0x1_0000_0000
    case Str(s) => |s| < 0x1_0000
  }

  // --- one field -----------------------------------------------------------

  function Read(kind: Kind, bs: Text): (r: Option<(Field, Text)>)
    ensures r.Some? ==> |r.value.1| < |bs|
  {
    if kind == ANumber then
      if |bs| < 4 then None
      else Some((Number(Value(bs[..4])), bs[4..]))
    else if |bs| < 2 then None
    else
      var n := Value(bs[..2]);
      if |bs| < 2 + n then None else Some((Str(bs[2..2 + n]), bs[2 + n..]))
  }

  lemma ReadNumber(v: nat, rest: Text)
    ensures Read(ANumber, Bytes(Number(v)) + rest) == Some((Number(v), rest)) <==> v < 0x1_0000_0000
  {
    var bs := Bytes(Number(v)) + rest;
    Powers();
    assert bs[..4] == Digits(4, v) && bs[4..] == rest;
    ValueBound(Digits(4, v));
    if v < 0x1_0000_0000 {
      SmallValue(4, v);
    }
  }

  lemma ReadString(s: Text, rest: Text)
    ensures Read(AString, Bytes(Str(s)) + rest) == Some((Str(s), rest)) <==> |s| < 0x1_0000
  {
    var bs, n := Bytes(Str(s)) + rest, |s| % 0x1_0000;
    Powers();
    assert bs == Digits(2, n) + s + rest;
    assert bs[..2] == Digits(2, n);
    SmallValue(2, n);
    if |s| < 0x1_0000 {
      assert bs[2..2 + n] == s && bs[2 + n..] == rest;
    }
  }

  /** Reading undoes writing exactly for the fields that fit. */
  lemma ReadBytes(f: Field, rest: Text)
    ensures Read(KindOf(f), Bytes(f) + rest) == Some((f, rest)) <==> Fits(f)
  {
    match f
    case Number(v) => ReadNumber(v, rest);
    case Str(s) => ReadString(s, rest);
  }

  lemma StringBytes(size: Text, s: Text)
    requires |size| == 2 && Value(size) == |s|
    ensures Bytes(Str(s)) == size + s && |s| < 0x1_0000
  {
    Powers();
    ValueBound(size);
    ValueDigits(size);
    assert |s| % 0x1_0000 == |s|;
  }

  lemma ThreeParts(bs: Text, i: nat, j: nat)
    requires i <= j <= |bs|
    ensures bs == bs[..i] + bs[i..j] + bs[j..]
  {
  }

  lemma ReadOnlyString(bs: Text)
    requires Read(AString, bs).Some?
    ensures var (f, rest) := Read(AString, bs).value; bs == Bytes(f) + rest && Fits(f) && f.Str?
  {
    var n := Value(bs[..2]);
    StringBytes(bs[..2], bs[2..2 + n]);
    ThreeParts(bs, 2, 2 + n);
  }

  lemma ReadOnlyNumber(bs: Text)
    requires Read(ANumber, bs).Some?
    ensures var (f, rest) := Read(ANumber, bs).value; bs == Bytes(f) + rest && Fits(f) && f.Number?
  {
    Powers();
    ValueBound(bs[..4]);
    ValueDigits(bs[..4]);
    assert bs == bs[..4] + bs[4..];
  }

  /** And only bytes that were written so are read. */
  lemma ReadOnlyBytes(kind: Kind, bs: Text)
    requires Read(kind, bs).Some?
    ensures var (f, rest) := Read(kind, bs).value; bs == Bytes(f) + rest && Fits(f) && KindOf(f) == kind
  {
    if kind == ANumber {
      ReadOnlyNumber(bs);
    } else {
      ReadOnlyString(bs);
    }
  }

  // --- many fields ---------------------------------------------------------

  function Kinds(fs: seq<Field>): seq<Kind> {
    seq(|fs|, i requires 0 <= i < |fs| => KindOf(fs[i]))
  }

  predicate AllFit(fs: seq<Field>) {
    forall i :: 0 <= i < |fs| ==> Fits(fs[i])
  }

  function ReadAll(kinds: seq<Kind>, bs: Text): Option<(seq<Field>, Text)>
  {
    if kinds == [] then Some(([], bs))
    else
      match Read(kinds[0], bs)
      case None => None
      case Some((f, rest)) =>
        match ReadAll(kinds[1..], rest)
        case None => None
        case Some((fs, rest')) => Some(([f] + fs, rest'))
  }

  lemma FlatCons(f: Field, fs: seq<Field>)
    ensures Flat([f] + fs) == Bytes(f) + Flat(fs)
  {
    assert ([f] + fs)[1..] == fs;
  }

  lemma FitCons(f: Field, fs: seq<Field>)
    ensures AllFit([f] + fs) <==> Fits(f) && AllFit(fs)
  {
    var all := [f] + fs;
    assert all[0] == f;
    assert forall i :: 0 <= i < |fs| ==> fs[i] == all[i + 1];
    assert forall i :: 1 <= i < |all| ==> all[i] == fs[i - 1];
  }

  lemma Cons(f: Field, fs: seq<Field>)
    ensures Flat([f] + fs) == Bytes(f) + Flat(fs)
    ensures AllFit([f] + fs) <==> Fits(f) && AllFit(fs)
    ensures Kinds([f] + fs) == [KindOf(f)] + Kinds(fs)
  {
    FlatCons(f, fs);
    FitCons(f, fs);
  }

  lemma ReadAllNext(kinds: seq<Kind>, bs: Text, f: Field, rest: Text)
    requires kinds != [] && Read(kinds[0], bs) == Some((f, rest)) && ReadAll(kinds[1..], rest).Some?
    ensures ReadAll(kinds, bs) == Some(([f] + ReadAll(kinds[1..], rest).value.0, ReadAll(kinds[1..], rest).value.1))
  {
  }

  lemma Uncons(fs: seq<Field>, rest: Text)
    requires fs != []
    ensures Flat(fs) + rest == Bytes(fs[0]) + (Flat(fs[1..]) + rest) && fs == [fs[0]] + fs[1..]
    ensures Kinds(fs) != [] && Kinds(fs)[0] == KindOf(fs[0]) && Kinds(fs)[1..] == Kinds(fs[1..])
    ensures AllFit(fs) ==> Fits(fs[0]) && AllFit(fs[1..])
  {
    Reassociate(Bytes(fs[0]), Flat(fs[1..]), rest);
  }

  lemma {:induction false} ReadAllBytes(fs: seq<Field>, rest: Text)
    requires AllFit(fs)
    ensures ReadAll(Kinds(fs), Flat(fs) + rest) == Some((fs, rest))
  {
    if fs == [] {
      assert Flat(fs) + rest == rest;
    } else {
      Uncons(fs, rest);
      ReadBytes(fs[0], Flat(fs[1..]) + rest);
      ReadAllBytes(fs[1..], rest);
      ReadAllNext(Kinds(fs), Flat(fs) + rest, fs[0], Flat(fs[1..]) + rest);
    }
  }

  lemma {:induction false} ReadAllOnly(kinds: seq<Kind>, bs: Text)
    requires ReadAll(kinds, bs).Some?
    ensures var (fs, rest) := ReadAll(kinds, bs).value; bs == Flat(fs) + rest && AllFit(fs) && Kinds(fs) == kinds
  {
    if kinds == [] {
      assert Flat([]) + bs == bs;
    } else {
      ReadOnlyBytes(kinds[0], bs);
      var (f, rest) := Read(kinds[0], bs).value;
      ReadAllOnly(kinds[1..], rest);
      var (fs, rest') := ReadAll(kinds[1..], rest).value;
      Cons(f, fs);
      Reassociate(Bytes(f), Flat(fs), rest');
    }
  }

  // --- the servers, which end where the last 13 bytes begin -----------------

  const TAIL: nat := 13

  function ReadServers(bs: Text): Option<(seq<Text>, Text)>
    decreases |bs|
  {
    if |bs| <= TAIL then Some(([], bs))
    else
      match Read(AString, bs)
      case None => None
      case Some((f, rest)) =>
        match ReadServers(rest)
        case None => None
        case Some((dns, rest')) => if f.Str? then Some(([f.s] + dns, rest')) else None
  }

  lemma ReadServer(s: Text, tail: Text)
    requires |s| < 0x1_0000 && |tail| >= TAIL && ReadServers(tail).Some?
    ensures ReadServers(Bytes(Str(s)) + tail) == Some(([s] + ReadServers(tail).value.0, ReadServers(tail).value.1))
  {
    ReadBytes(Str(s), tail);
  }

  lemma ServersCons(dns: seq<Text>, rest: Text)
    requires dns != []
    ensures Servers(dns) == [Str(dns[0])] + Servers(dns[1..])
    ensures Flat(Servers(dns)) + rest == Bytes(Str(dns[0])) + (Flat(Servers(dns[1..])) + rest)
    ensures AllFit(Servers(dns)) ==> |dns[0]| < 0x1_0000 && AllFit(Servers(dns[1..]))
  {
    var f, fs := Str(dns[0]), Servers(dns[1..]);
    assert Servers(dns) == [f] + fs;
    Cons(f, fs);
    Reassociate(Bytes(f), Flat(fs), rest);
  }

  lemma {:induction false} ReadServersBytes(dns: seq<Text>, rest: Text)
    requires AllFit(Servers(dns)) && |rest| == TAIL
    ensures ReadServers(Flat(Servers(dns)) + rest) == Some((dns, rest))
  {
    if dns == [] {
      assert Flat(Servers([])) + rest == rest;
    } else {
      ServersCons(dns, rest);
      ReadServersBytes(dns[1..], rest);
      ReadServer(dns[0], Flat(Servers(dns[1..])) + rest);
      assert dns == [dns[0]] + dns[1..];
    }
  }

  lemma {:induction false} ReadServersOnly(bs: Text)
    requires ReadServers(bs).Some?
    ensures var (dns, rest) := ReadServers(bs).value; bs == Flat(Servers(dns)) + rest && AllFit(Servers(dns))
    decreases |bs|
  {
    if |bs| <= TAIL {
      assert Flat(Servers([])) + bs == bs;
    } else {
      ReadOnlyBytes(AString, bs);
      var (f, rest) := Read(AString, bs).value;
      ReadServersOnly(rest);
      var (dns, rest') := ReadServers(rest).value;
      assert Servers([f.s] + dns) == [f] + Servers(dns);
      Cons(f, Servers(dns));
      Reassociate(Bytes(f), Flat(Servers(dns)), rest');
    }
  }

  // --- configurations ------------------------------------------------------

  function AssignmentOf(s: Text): Assignment {
    if s == Ascii("STATIC") then Static else if s == Ascii("DHCP") then Dhcp else Unknown
  }

  lemma NamesDiffer(a: Assignment)
    ensures AssignmentOf(Name(a)) == a
  {
    assert |Ascii("STATIC")| == 6 && |Ascii("DHCP")| == 4 && |Ascii("UNKNOWN")| == 7;
  }

  const HEAD: seq<Kind> := [ANumber, AString, AString, AString, AString, ANumber, AString, ANumber, ANumber, AString, AString]

  function Decode(bs: Text): Option<Config>
  {
    match ReadAll(HEAD, bs)
    case None => None
    case Some((head, rest)) =>
      match ReadServers(rest)
      case None => None
      case Some((dns, end)) =>
        match ReadAll([AString, ANumber, AString], end)
        case None => None
        case Some((tail, left)) => Assemble(head, dns, tail, left)
  }

  /** The configuration with these fields, if its keys and fixed numbers are where they should be. */
  function Assemble(head: seq<Field>, dns: seq<Text>, tail: seq<Field>, left: Text): Option<Config> {
    if Kinds(head) == HEAD && Kinds(tail) == [AString, ANumber, AString] then
      assert |head| == 11 && |tail| == 3;
      assert forall i :: 0 <= i < 11 ==> KindOf(head[i]) == HEAD[i];
      assert KindOf(tail[1]) == Kinds(tail)[1] == ANumber;
      var c := Config(head[0].v, AssignmentOf(head[2].s), head[4].s, head[5].v, head[9].s, dns, tail[1].v);
      if && head[1] == Str(Ascii("ipAssignment")) && head[2] == Str(Name(c.assignment)) && head[3] == Str(Ascii("linkAddress"))
         && head[6] == Str(Ascii("gateway")) && head[7] == Number(0) && head[8] == Number(1) && head[10] == Str(Ascii("dns"))
         && tail[0] == Str(Ascii("id")) && tail[2] == Str(Ascii("eos")) && left == [] then
        Some(c)
      else None
    else None
  }

  lemma AssembleOnly(head: seq<Field>, dns: seq<Text>, tail: seq<Field>, left: Text)
    requires Assemble(head, dns, tail, left).Some?
    ensures var c := Assemble(head, dns, tail, left).value; head == Head(c) && tail == Tail(c) && left == [] && c.dns == dns
  {
    assert forall i :: 0 <= i < 11 ==> KindOf(head[i]) == Kinds(head)[i] == HEAD[i];
    assert forall i :: 0 <= i < 3 ==> KindOf(tail[i]) == Kinds(tail)[i];
  }

  lemma AssembleParts(c: Config)
    requires Kinds(Head(c)) == HEAD && Kinds(Tail(c)) == [AString, ANumber, AString]
    ensures Assemble(Head(c), c.dns, Tail(c), []) == Some(c)
  {
    NamesDiffer(c.assignment);
  }

  /** What the types of the builder's fields promise. */
  predicate Numbers(c: Config) {
    c.version < 0x1_0000_0000 && c.prefixLength < 0x1_0000_0000 && c.id < 0x1_0000_0000
  }

  predicate Short(c: Config) {
    |c.address| < 0x1_0000 && |c.gateway| < 0x1_0000 && forall i :: 0 <= i < |c.dns| ==> |c.dns[i]| < 0x1_0000
  }

  lemma ShortFits(c: Config)
    requires Numbers(c)
    ensures Short(c) <==> AllFit(Head(c)) && AllFit(Servers(c.dns))
    ensures AllFit(Tail(c)) && |Flat(Tail(c))| == TAIL
    ensures Kinds(Head(c)) == HEAD && Kinds(Tail(c)) == [AString, ANumber, AString]
  {
    var h, s, t := Head(c), Servers(c.dns), Tail(c);
    assert forall i :: 0 <= i < |c.dns| ==> (Fits(s[i]) <==> |c.dns[i]| < 0x1_0000);
    assert Fits(h[4]) <==> |c.address| < 0x1_0000;
    assert Fits(h[9]) <==> |c.gateway| < 0x1_0000;
    assert |Name(c.assignment)| <= 7;
    TailLength(c);
  }

  lemma TailLength(c: Config)
    ensures |Flat(Tail(c))| == TAIL
  {
    var t := Tail(c);
    assert t == [t[0]] + ([t[1]] + ([t[2]] + []));
    Cons(t[0], [t[1]] + ([t[2]] + []));
    Cons(t[1], [t[2]] + []);
    Cons(t[2], []);
    assert |Bytes(t[0])| == 4 && |Bytes(t[1])| == 4 && |Bytes(t[2])| == 5;
  }

  lemma EncodeParts(c: Config)
    ensures Encode(c) == Flat(Head(c)) + (Flat(Servers(c.dns)) + Flat(Tail(c)))
  {
    FlatThree(Head(c), Servers(c.dns), Tail(c));
  }

  /** A configuration is read back unchanged exactly when its strings are short enough for their 16-bit lengths. */
  lemma RoundTrip(c: Config)
    requires Numbers(c)
    ensures Decode(Encode(c)) == Some(c) <==> Short(c)
  {
    ShortFits(c);
    if Short(c) {
      var tail := Flat(Tail(c));
      EncodeParts(c);
      ReadAllBytes(Head(c), Flat(Servers(c.dns)) + tail);
      ReadServersBytes(c.dns, tail);
      assert tail == tail + [];
      ReadAllBytes(Tail(c), []);
      AssembleParts(c);
    } else if Decode(Encode(c)) == Some(c) {
      DecodeOnly(Encode(c));
    }
  }

  /** Only encodings are read, and each as the one short configuration it encodes. */
  lemma DecodeOnly(bs: Text)
    requires Decode(bs).Some?
    ensures Encode(Decode(bs).value) == bs && Numbers(Decode(bs).value) && Short(Decode(bs).value)
  {
    var c := Decode(bs).value;
    ReadAllOnly(HEAD, bs);
    var (head, rest) := ReadAll(HEAD, bs).value;
    ReadServersOnly(rest);
    var (dns, end) := ReadServers(rest).value;
    ReadAllOnly([AString, ANumber, AString], end);
    var (tail, left) := ReadAll([AString, ANumber, AString], end).value;
    AssembleOnly(head, dns, tail, left);
    assert Fits(head[0]) && Fits(head[5]) && Fits(tail[1]);
    assert end == Flat(tail);
    EncodeParts(c);
    ShortFits(c);
  }

  /** Different configurations with short strings have different encodings. */
  lemma Injective(c: Config, d: Config)
    requires Numbers(c) && Numbers(d) && Short(c) && Short(d) && Encode(c) == Encode(d)
    ensures c == d
  {
    RoundTrip(c);
    RoundTrip(d);
  }

  // --- long strings --------------------------------------------------------

  function Zeros(n: nat): (z: Text)
    ensures |z| == n && forall i :: 0 <= i < n ==> z[i] == 0
  {
    seq(n, i => 0)
  }

  function Empties(n: nat): seq<Text> {
    seq(n, i => [])
  }

  lemma NoLength()
    ensures Uint16(Big, 0) == [0, 0] && Bytes(Str([])) == [0, 0]
  {
    assert Digits(1, 0) == [0];
    assert Digits(2, 0) == [0, 0];
  }

  lemma {:induction false} EmptyServers(n: nat)
    ensures Flat(Servers(Empties(n))) == Zeros(2 * n)
  {
    if n > 0 {
      assert Servers(Empties(n))[1..] == Servers(Empties(n - 1));
      EmptyServers(n - 1);
      NoLength();
      assert Zeros(2 * n) == [0, 0] + Zeros(2 * (n - 1));
    }
  }

  lemma WrappedServer(n: nat)
    requires n % 0x1_0000 == 0
    ensures Flat(Servers([Zeros(n)])) == Zeros(n + 2)
  {
    var f := Str(Zeros(n));
    assert Servers([Zeros(n)]) == [f] + [];
    Cons(f, []);
    NoLength();
    assert Bytes(f) == [0, 0] + Zeros(n);
    assert [0, 0] + Zeros(n) == Zeros(n + 2);
  }

  lemma SameBytes(k: nat)
    ensures Flat(Servers([Zeros(0x1_0000 * k)])) == Flat(Servers(Empties(0x8000 * k + 1)))
  {
    WrappedServer(0x1_0000 * k);
    EmptyServers(0x8000 * k + 1);
  }

  /** Without the bound encodings collide: a server of 65536 zero bytes, or any multiple, reads like half as many empty ones and one more. */
  lemma LongCollision(c: Config, k: nat)
    ensures Encode(c.(dns := [Zeros(0x1_0000 * k)])) == Encode(c.(dns := Empties(0x8000 * k + 1)))
    ensures k > 0 ==> c.(dns := [Zeros(0x1_0000 * k)]) != c.(dns := Empties(0x8000 * k + 1))
  {
    assert |[Zeros(0x1_0000 * k)]| == 1 && |Empties(0x8000 * k + 1)| == 0x8000 * k + 1;
    EncodeServers(c, [Zeros(0x1_0000 * k)]);
    EncodeServers(c, Empties(0x8000 * k + 1));
    SameBytes(k);
  }

  lemma EncodeServers(c: Config, dns: seq<Text>)
    ensures Encode(c.(dns := dns)) == Flat(Head(c)) + (Flat(Servers(dns)) + Flat(Tail(c)))
  {
    EncodeParts(c.(dns := dns));
  }
}
