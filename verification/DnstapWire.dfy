/** The protobuf encoding of one dnstap record, two levels deep (internal/dnstap/dnstap.go), and a decoder for it. */
module DnstapWire {
  import opened Common
  import opened Text

  type byte = b: int | 0 <= b < 256

  type bytes = seq<byte>

  // ---------- variable-length integers ----------

  /** Seven bits to a byte, the low ones first; every byte but the last has its high bit set. */
  function Uvarint(v: nat): bytes {
    if v < 128 then [v] else [v % 128 + 128] + Uvarint(v / 128)
  }

  /** The number at the front, and how many bytes it takes. */
  function DecodeUvarint(bs: bytes): (r: Option<(nat, nat)>)
    ensures r.Some? ==> 0 < r.value.1 <= |bs|
  {
    if bs == [] then None
    else if bs[0] < 128 then Some((bs[0], 1))
    else match DecodeUvarint(bs[1..])
      case None => None
      case Some((v, n)) => Some((bs[0] - 128 + 128 * v, n + 1))
  }

  /** Encoding and decoding are inverse, and the encoding shows where it ends. */
  lemma {:induction false} UvarintDecodes(v: nat, rest: bytes)
    ensures DecodeUvarint(Uvarint(v) + rest) == Some((v, |Uvarint(v)|))
  {
    var bs := Uvarint(v) + rest;
    if v < 128 {
      assert bs[0] == v;
    } else {
      UvarintDecodes(v / 128, rest);
      assert bs[1..] == Uvarint(v / 128) + rest;
    }
  }

  /** A 64-bit number takes at most ten bytes. */
  lemma UvarintLength(v: nat)
    requires v < TWO_64
    ensures 1 <= |Uvarint(v)| <= 10
  {
    UvarintAtMost(v, 10);
  }

  function Pow128(n: nat): nat {
    if n == 0 then 1 else 128 * Pow128(n - 1)
  }

  lemma {:induction false} UvarintAtMost(v: nat, n: nat)
    requires 0 < n && v < Pow128(n)
    ensures 1 <= |Uvarint(v)| <= n
  {
    if v >= 128 {
      assert n > 1 by {
        assert Pow128(1) == 128 * Pow128(0);
      }
      UvarintAtMost(v / 128, n - 1);
    }
  }

  // ---------- fields ----------

  datatype Field = VarintField(num: nat, v: nat) | BytesField(num: nat, bs: bytes)

  const VARINT: nat := 0
  const LENGTH_DELIMITED: nat := 2

  function AppendVarint(b: bytes, num: nat, v: nat): bytes {
    b + Uvarint(num * 8 + VARINT) + Uvarint(v)
  }

  /** An empty field is left out. */
  function AppendBytes(b: bytes, num: nat, v: bytes): bytes {
    if |v| == 0 then b else b + Uvarint(num * 8 + LENGTH_DELIMITED) + Uvarint(|v|) + v
  }

  function Append(b: bytes, f: Field): bytes {
    match f
    case VarintField(num, v) => AppendVarint(b, num, v)
    case BytesField(num, bs) => AppendBytes(b, num, bs)
  }

  /** The first `n` fields, one appended after the other. */
  function EncodeUpTo(fs: seq<Field>, n: nat): bytes
    requires n <= |fs|
  {
    if n == 0 then [] else Append(EncodeUpTo(fs, n - 1), fs[n - 1])
  }

  function Encode(fs: seq<Field>): bytes {
    EncodeUpTo(fs, |fs|)
  }

  /** The fields that show in the encoding. */
  function Present(fs: seq<Field>): seq<Field> {
    if fs == [] then []
    else (if fs[0].BytesField? && fs[0].bs == [] then [] else [fs[0]]) + Present(fs[1..])
  }

  /** The first field, and how many bytes it takes. */
  function DecodeField(bs: bytes): (r: Option<(Field, nat)>)
    ensures r.Some? ==> 0 < r.value.1 <= |bs|
  {
    match DecodeUvarint(bs)
    case None => None
    case Some((tag, n)) =>
      match DecodeUvarint(bs[n..])
      case None => None
      case Some((v, m)) =>
        if tag % 8 == 0 then Some((VarintField(tag / 8, v), n + m))
        else if tag % 8 == 2 && v <= |bs| - n - m then
          Some((BytesField(tag / 8, bs[n + m..n + m + v]), n + m + v))
        else None
  }

  /** All the fields, with nothing left over. */
  function Decode(bs: bytes): Option<seq<Field>> {
    if bs == [] then Some([])
    else match DecodeField(bs)
      case None => None
      case Some((f, n)) =>
        match Decode(bs[n..])
        case None => None
        case Some(fs) => Some([f] + fs)
  }

  lemma Suffixes(a: bytes, b: bytes, c: bytes)
    ensures a + b + c == a + (b + c)
    ensures (a + (b + c))[|a|..] == b + c
    ensures (a + (b + c))[|a| + |b|..] == c
  {
  }

  lemma Middle(a: bytes, b: bytes, c: bytes, d: bytes)
    ensures (a + (b + (c + d)))[|a| + |b|..|a| + |b| + |c|] == c
  {
  }

  /** Two numbers in a row are read back, and then comes what follows them. */
  lemma TwoNumbers(tag: nat, v: nat, tail: bytes)
    ensures var bs := Uvarint(tag) + (Uvarint(v) + tail);
            var n, m := |Uvarint(tag)|, |Uvarint(v)|;
            && DecodeUvarint(bs) == Some((tag, n))
            && DecodeUvarint(bs[n..]) == Some((v, m))
            && bs[n + m..] == tail
  {
    hide Uvarint, DecodeUvarint;
    UvarintDecodes(tag, Uvarint(v) + tail);
    UvarintDecodes(v, tail);
    Suffixes(Uvarint(tag), Uvarint(v), tail);
  }

  lemma VarintDecodes(num: nat, v: nat, rest: bytes)
    ensures var f := VarintField(num, v);
            DecodeField(Append([], f) + rest) == Some((f, |Append([], f)|))
  {
    hide Uvarint, DecodeUvarint;
    var tag := num * 8 + VARINT;
    TwoNumbers(tag, v, rest);
    assert Append([], VarintField(num, v)) == Uvarint(tag) + Uvarint(v);
    Suffixes(Uvarint(tag), Uvarint(v), rest);
  }

  lemma BytesShape(num: nat, v: bytes, rest: bytes)
    requires v != []
    ensures var tag := num * 8 + LENGTH_DELIMITED;
            var enc := Append([], BytesField(num, v));
            && enc + rest == Uvarint(tag) + (Uvarint(|v|) + (v + rest))
            && |enc| == |Uvarint(tag)| + |Uvarint(|v|)| + |v|
  {
    hide Uvarint;
    var tag := num * 8 + LENGTH_DELIMITED;
    assert Append([], BytesField(num, v)) == Uvarint(tag) + Uvarint(|v|) + v;
    Suffixes(Uvarint(tag) + Uvarint(|v|), v, rest);
    Suffixes(Uvarint(tag), Uvarint(|v|), v + rest);
  }

  lemma BytesDecodes(num: nat, v: bytes, rest: bytes)
    requires v != []
    ensures var f := BytesField(num, v);
            DecodeField(Append([], f) + rest) == Some((f, |Append([], f)|))
  {
    hide Uvarint, DecodeUvarint, Append;
    var tag := num * 8 + LENGTH_DELIMITED;
    BytesShape(num, v, rest);
    TwoNumbers(tag, |v|, v + rest);
    Middle(Uvarint(tag), Uvarint(|v|), v, rest);
  }

  lemma FieldDecodes(f: Field, rest: bytes)
    requires !(f.BytesField? && f.bs == [])
    ensures DecodeField(Append([], f) + rest) == Some((f, |Append([], f)|))
  {
    match f
    case VarintField(num, v) => VarintDecodes(num, v, rest);
    case BytesField(num, v) => BytesDecodes(num, v, rest);
  }

  lemma AppendIsConcat(b: bytes, f: Field)
    ensures Append(b, f) == b + Append([], f)
  {
    hide Uvarint;
    match f
    case VarintField(num, v) =>
      var tag := Uvarint(num * 8 + VARINT);
      Suffixes(b, tag, Uvarint(v));
      assert [] + tag + Uvarint(v) == tag + Uvarint(v);
    case BytesField(num, v) =>
      var tag, len := Uvarint(num * 8 + LENGTH_DELIMITED), Uvarint(|v|);
      Suffixes(b, tag, len);
      Suffixes(b, tag + len, v);
      assert [] + tag + len + v == tag + len + v;
  }

  /** One more field is appended at the end. */
  lemma EncodeNext(fs: seq<Field>, k: nat)
    requires k < |fs|
    ensures EncodeUpTo(fs, k + 1) == Append(EncodeUpTo(fs, k), fs[k])
  {
  }

  lemma {:induction false} EncodeCons(f: Field, fs: seq<Field>, n: nat)
    requires n <= |fs|
    ensures EncodeUpTo([f] + fs, n + 1) == Append([], f) + EncodeUpTo(fs, n)
  {
    var all := [f] + fs;
    EncodeNext(all, n);
    hide Append;
    if n == 0 {
      assert EncodeUpTo(all, 0) == [] && EncodeUpTo(fs, 0) == [] && all[0] == f;
    } else {
      var last := fs[n - 1];
      EncodeCons(f, fs, n - 1);
      EncodeNext(fs, n - 1);
      hide EncodeUpTo;
      assert all[n] == last;
      AppendIsConcat(EncodeUpTo(all, n), last);
      AppendIsConcat(EncodeUpTo(fs, n - 1), last);
      Suffixes(Append([], f), EncodeUpTo(fs, n - 1), Append([], last));
    }
  }

  /** Decoding what was encoded gives back the fields, in order, without the empty ones, and nothing else. */
  lemma {:induction false} EncodeDecodes(fs: seq<Field>)
    ensures Decode(Encode(fs)) == Some(Present(fs))
  {
    if fs != [] {
      var f, rest := fs[0], fs[1..];
      assert fs == [f] + rest;
      EncodeCons(f, rest, |rest|);
      EncodeDecodes(rest);
      if f.BytesField? && f.bs == [] {
        assert Append([], f) == [];
        assert Encode(fs) == Encode(rest);
        assert Present(fs) == Present(rest);
      } else {
        FieldDecodes(f, Encode(rest));
        DecodeStep(f, Append([], f), Encode(rest));
      }
    }
  }

  lemma DecodeStep(f: Field, enc: bytes, rest: bytes)
    requires enc != [] && DecodeField(enc + rest) == Some((f, |enc|)) && Decode(rest).Some?
    ensures Decode(enc + rest) == Some([f] + Decode(rest).value)
  {
    assert (enc + rest)[|enc|..] == rest;
  }

  // ---------- addresses ----------

  /** A peer. Of one that is neither a UDP nor a TCP address only the text is known; `split` is what splitting that into
      host and port gives, with the address that the host parses as. */
  datatype Addr =
    | UdpAddr(ip: Option<bytes>, number: int)
    | TcpAddr(ip: Option<bytes>, number: int)
    | OtherAddr(split: Option<HostPort>)

  datatype HostPort = HostPort(host: Option<bytes>, port: string)

  function IpFromAddr(a: Addr): Option<bytes> {
    match a
    case UdpAddr(ip, _) => ip
    case TcpAddr(ip, _) => ip
    case OtherAddr(None) => None
    case OtherAddr(Some(hp)) => hp.host
  }

  /** The port as a number: a numeral is read modulo 2^64, and anything else is zero. */
  function PortOf(a: Addr): nat {
    match a
    case UdpAddr(_, number) => UInt64(number)
    case TcpAddr(_, number) => UInt64(number)
    case OtherAddr(None) => 0
    case OtherAddr(Some(hp)) => if AllDigits(hp.port) then UInt64(Numeral(hp.port)) else 0
  }

  method Port(a: Addr) returns (n: nat)
    ensures n == PortOf(a)
  {
    match a
    case UdpAddr(_, number) => n := UInt64(number);
    case TcpAddr(_, number) => n := UInt64(number);
    case OtherAddr(split) =>
      if split.None? {
        return 0;
      }
      var p := split.value.port;
      n := 0;
      for i := 0 to |p|
        invariant AllDigits(p[..i]) && n == UInt64(Numeral(p[..i]))
      {
        if p[i] < '0' || p[i] > '9' {
          return 0;
        }
        assert p[..i + 1][..i] == p[..i] && p[..i + 1][i] == p[i];
        WrapDigit(Numeral(p[..i]), p[i] as int - '0' as int);
        n := UInt64(n * 10 + (p[i] as int - '0' as int));
      }
      assert p[..|p|] == p;
  }

  /** Wrapping after every digit is wrapping once. */
  lemma WrapDigit(x: nat, d: nat)
    ensures UInt64(UInt64(x) * 10 + d) == UInt64(x * 10 + d)
  {
    var q := x / TWO_64;
    assert x * 10 + d == UInt64(x) * 10 + d + q * 10 * TWO_64;
    WrapMultiple(UInt64(x) * 10 + d, q * 10);
  }

  lemma {:induction false} WrapMultiple(x: nat, k: nat)
    ensures UInt64(x + k * TWO_64) == UInt64(x)
  {
    if k > 0 {
      WrapMultiple(x, k - 1);
      assert x + k * TWO_64 == (x + (k - 1) * TWO_64) + TWO_64;
    }
  }

  /** A decimal port below 2^16 arrives as that number, from any kind of address. */
  lemma PortArrives(port: nat, ip: Option<bytes>)
    requires port < 0x1_0000
    ensures PortOf(UdpAddr(ip, port)) == PortOf(TcpAddr(ip, port)) == port
    ensures PortOf(OtherAddr(Some(HostPort(ip, Decimal(port))))) == port
  {
    NumeralOfDecimal(port);
  }

  /** Anything else is sent as port zero. */
  lemma NoPort(a: Addr)
    requires a.OtherAddr? && (a.split.Some? ==> exists c | c in a.split.value.port :: !('0' <= c <= '9'))
    ensures PortOf(a) == 0
  {
  }

  predicate IsMapped(ip: bytes) {
    |ip| == 16 && (forall i | 0 <= i < 10 :: ip[i] == 0) && ip[10] == 255 && ip[11] == 255
  }

  function To4(ip: bytes): Option<bytes> {
    if |ip| == 4 then Some(ip) else if IsMapped(ip) then Some(ip[12..]) else None
  }

  function To16(ip: bytes): bytes {
    if |ip| == 4 then [0, 0, 0, 0, 0, 0, 0, 0, 0, 0, 255, 255] + ip else if |ip| == 16 then ip else []
  }

  function SocketFamily(a: Addr): nat {
    var ip := IpFromAddr(a);
    if ip.Some? && To4(ip.value).None? then 2 else 1
  }

  function AddrBytes(a: Addr): bytes {
    var ip := IpFromAddr(a);
    if ip.None? then []
    else match To4(ip.value)
      case Some(v4) => v4
      case None => To16(ip.value)
  }

  function SocketProtocol(transport: string): nat {
    if "tcp" <= transport then 2 else 1
  }

  /** An address that is sent has the length of the family sent with it. */
  lemma FamilyMatchesAddress(a: Addr)
    ensures |AddrBytes(a)| in {0, 4, 16}
    ensures |AddrBytes(a)| == 4 ==> SocketFamily(a) == 1
    ensures |AddrBytes(a)| == 16 ==> SocketFamily(a) == 2
    ensures var ip := IpFromAddr(a);
            ip.Some? && |ip.value| in {4, 16} ==> AddrBytes(a) != [] && To16(ip.value) == To16(AddrBytes(a))
  {
  }

  /** The peer, of whatever kind, has the IP address. */
  predicate HasIp(a: Addr, ip: bytes) {
    match a
    case UdpAddr(i, _) => i == Some(ip)
    case TcpAddr(i, _) => i == Some(ip)
    case OtherAddr(s) => s.Some? && s.value.host == Some(ip)
  }

  /** What an IPv4 address begins with when it is written in sixteen bytes. */
  const MAPPED: bytes := [0, 0, 0, 0, 0, 0, 0, 0, 0, 0, 255, 255]

  /** What is sent for an address: four bytes as they are, with the family of IPv4; the last four of sixteen that stand
      for an IPv4 address, likewise; and any other sixteen as they are, with the family of IPv6. Without an address, or
      with one of no other length, none is sent. */
  lemma AddressSent(a: Addr, ip: bytes)
    ensures HasIp(a, ip) && |ip| == 4 ==> AddrBytes(a) == ip && SocketFamily(a) == 1
    ensures HasIp(a, ip) && |ip| == 16 && ip[..12] == MAPPED ==> AddrBytes(a) == ip[12..] && SocketFamily(a) == 1
    ensures HasIp(a, ip) && |ip| == 16 && ip[..12] != MAPPED ==> AddrBytes(a) == ip && SocketFamily(a) == 2
    ensures HasIp(a, ip) && |ip| != 4 && |ip| != 16 ==> AddrBytes(a) == [] && SocketFamily(a) == 2
    ensures (forall b :: !HasIp(a, b)) ==> AddrBytes(a) == [] && SocketFamily(a) == 1
  {
    if |ip| == 16 {
      assert IsMapped(ip) <==> ip[..12] == MAPPED;
    }
    assert IpFromAddr(a).Some? ==> HasIp(a, IpFromAddr(a).value);
  }

  // ---------- the record ----------

  /** Seconds since 1970, and nanoseconds within the second. */
  datatype Time = Time(sec: int, nsec: nat)

  /** A query and its response; packing either of the messages may have failed. */
  datatype Record = Record(query: Option<bytes>, response: Option<bytes>, local: Addr, remote: Addr,
                           transport: string, qt: Time, rt: Time)

  predicate Packs(r: Record) {
    r.query.Some? && r.response.Some?
  }

  /** The fields of the inner message. */
  function MessageFields(r: Record): seq<Field>
    requires Packs(r)
  {
    [ VarintField(1, 6),
      VarintField(2, SocketFamily(r.remote)),
      VarintField(3, SocketProtocol(r.transport)),
      BytesField(4, AddrBytes(r.remote)),
      BytesField(5, AddrBytes(r.local)),
      VarintField(6, PortOf(r.remote)),
      VarintField(7, PortOf(r.local)),
      VarintField(8, UInt64(r.qt.sec)),
      VarintField(9, UInt64(r.qt.nsec)),
      BytesField(10, r.query.value),
      VarintField(11, UInt64(r.rt.sec)),
      VarintField(12, UInt64(r.rt.nsec)),
      BytesField(13, r.response.value) ]
  }

  /** The fields of the frame, the message being one of them. */
  function FrameFields(r: Record): seq<Field>
    requires Packs(r)
  {
    [VarintField(1, 1), BytesField(14, Encode(MessageFields(r)))]
  }

  /** What is sent for a record, unless packing fails. */
  function FrameOf(r: Record): Option<bytes> {
    if Packs(r) then Some(Encode(FrameFields(r))) else None
  }

  // ---------- a reader ----------

  /** The numbers in the fields with the given number, in order. */
  function Numbers(fs: seq<Field>, num: nat): seq<nat> {
    if fs == [] then []
    else (if fs[0].VarintField? && fs[0].num == num then [fs[0].v] else []) + Numbers(fs[1..], num)
  }

  function Texts(fs: seq<Field>, num: nat): seq<bytes> {
    if fs == [] then []
    else (if fs[0].BytesField? && fs[0].num == num then [fs[0].bs] else []) + Texts(fs[1..], num)
  }

  /** The fields of the message in a frame. */
  function ReadMessage(frame: bytes): Option<seq<Field>> {
    match Decode(frame)
    case None => None
    case Some(fs) =>
      if |fs| == 2 && Numbers(fs, 1) == [1] && |Texts(fs, 14)| == 1 then Decode(Texts(fs, 14)[0]) else None
  }

  /** Some bytes, unless there are none. */
  function IfAny(bs: bytes): seq<bytes> {
    if bs == [] then [] else [bs]
  }

  /** What a reader finds in the message: a client response; the family, address and port of the client, which is the
      remote end; the address and port of the server; and both messages with their times. */
  predicate IsMessage(fs: seq<Field>, r: Record) {
    && Numbers(fs, 1) == [6]
    && Numbers(fs, 2) == [SocketFamily(r.remote)]
    && Numbers(fs, 3) == [if "tcp" <= r.transport then 2 else 1]
    && Texts(fs, 4) == IfAny(AddrBytes(r.remote))
    && Texts(fs, 5) == IfAny(AddrBytes(r.local))
    && Numbers(fs, 6) == [PortOf(r.remote)]
    && Numbers(fs, 7) == [PortOf(r.local)]
    && Numbers(fs, 8) == [UInt64(r.qt.sec)]
    && Numbers(fs, 9) == [UInt64(r.qt.nsec)]
    && (r.query.Some? ==> Texts(fs, 10) == IfAny(r.query.value))
    && Numbers(fs, 11) == [UInt64(r.rt.sec)]
    && Numbers(fs, 12) == [UInt64(r.rt.nsec)]
    && (r.response.Some? ==> Texts(fs, 13) == IfAny(r.response.value))
  }

  lemma {:induction false} NumbersPresent(fs: seq<Field>, num: nat)
    ensures Numbers(Present(fs), num) == Numbers(fs, num)
  {
    if fs != [] {
      NumbersPresent(fs[1..], num);
      PresentTail(fs);
    }
  }

  lemma PresentTail(fs: seq<Field>)
    requires fs != []
    ensures fs[0].BytesField? && fs[0].bs == [] ==> Present(fs) == Present(fs[1..])
    ensures !(fs[0].BytesField? && fs[0].bs == []) ==>
              Present(fs) == [fs[0]] + Present(fs[1..]) && Present(fs)[1..] == Present(fs[1..])
  {
  }

  /** Only field `i` has its number. */
  ghost predicate Unique(fs: seq<Field>, i: nat) {
    i < |fs| && forall j | 0 <= j < |fs| && j != i :: fs[j].num != fs[i].num
  }

  lemma {:induction false} NoneWith(fs: seq<Field>, num: nat)
    requires forall j | 0 <= j < |fs| :: fs[j].num != num
    ensures Numbers(fs, num) == [] && Texts(fs, num) == []
  {
    if fs != [] {
      NoneWith(fs[1..], num);
    }
  }

  lemma {:induction false} TheOneWith(fs: seq<Field>, i: nat)
    requires Unique(fs, i)
    ensures fs[i].VarintField? ==> Numbers(fs, fs[i].num) == [fs[i].v]
    ensures fs[i].BytesField? ==> Texts(fs, fs[i].num) == [fs[i].bs]
  {
    if i == 0 {
      NoneWith(fs[1..], fs[0].num);
    } else {
      TheOneWith(fs[1..], i - 1);
    }
  }

  lemma {:induction false} TextsPresent(fs: seq<Field>, i: nat)
    requires Unique(fs, i) && fs[i].BytesField?
    ensures Texts(Present(fs), fs[i].num) == IfAny(fs[i].bs)
  {
    PresentTail(fs);
    hide Present;
    if i == 0 {
      NonePresent(fs[1..], fs[0].num);
    } else {
      TextsPresent(fs[1..], i - 1);
    }
  }

  lemma {:induction false} NonePresent(fs: seq<Field>, num: nat)
    requires forall j | 0 <= j < |fs| :: fs[j].num != num
    ensures Texts(Present(fs), num) == []
  {
    if fs != [] {
      PresentTail(fs);
      hide Present;
      NonePresent(fs[1..], num);
    }
  }

  lemma MessageUnique(r: Record)
    requires Packs(r)
    ensures |MessageFields(r)| == 13
    ensures forall i | 0 <= i < 13 :: MessageFields(r)[i].num == i + 1 && Unique(MessageFields(r), i)
  {
  }

  lemma NumberAt(r: Record, i: nat)
    requires Packs(r) && i < 13 && i < |MessageFields(r)| && MessageFields(r)[i].VarintField?
    ensures Numbers(Present(MessageFields(r)), i + 1) == [MessageFields(r)[i].v]
  {
    MessageUnique(r);
    hide *;
    NumbersPresent(MessageFields(r), i + 1);
    TheOneWith(MessageFields(r), i);
  }

  lemma TextAt(r: Record, i: nat)
    requires Packs(r) && i < 13 && i < |MessageFields(r)| && MessageFields(r)[i].BytesField?
    ensures Texts(Present(MessageFields(r)), i + 1) == IfAny(MessageFields(r)[i].bs)
  {
    MessageUnique(r);
    hide *;
    TextsPresent(MessageFields(r), i);
  }

  lemma PresentIsMessage(r: Record)
    requires Packs(r)
    ensures IsMessage(Present(MessageFields(r)), r)
  {
    hide Numbers, Texts, Present, UInt64, SocketFamily, AddrBytes, PortOf, IfAny;
    NumberAt(r, 0);
    NumberAt(r, 1);
    NumberAt(r, 2);
    TextAt(r, 3);
    TextAt(r, 4);
    NumberAt(r, 5);
    NumberAt(r, 6);
    NumberAt(r, 7);
    NumberAt(r, 8);
    TextAt(r, 9);
    NumberAt(r, 10);
    NumberAt(r, 11);
    TextAt(r, 12);
  }

  /** A reader finds in the frame of a record each part of it in its own field. */
  lemma FrameIsRead(r: Record)
    requires Packs(r)
    ensures FrameOf(r).Some?
    ensures var fs := ReadMessage(FrameOf(r).value); fs.Some? && IsMessage(fs.value, r)
  {
    FrameDecodes(r);
    PresentIsMessage(r);
    hide MessageFields, Encode, Decode, Present, IsMessage;
    ReadTwo(FrameOf(r).value, Encode(MessageFields(r)));
  }

  lemma ReadTwo(frame: bytes, msg: bytes)
    requires Decode(frame) == Some([VarintField(1, 1), BytesField(14, msg)])
    ensures ReadMessage(frame) == Decode(msg)
  {
    var a, b := VarintField(1, 1), BytesField(14, msg);
    assert Unique([a, b], 0) && Unique([a, b], 1);
    TheOneWith([a, b], 0);
    TheOneWith([a, b], 1);
  }

  // ---------- building it ----------

  /** Builds the inner message by appending field after field. */
  method Message(r: Record) returns (msg: bytes)
    requires Packs(r)
    ensures msg == Encode(MessageFields(r))
  {
    ghost var fs := MessageFields(r);
    assert EncodeUpTo(fs, 0) == [];
    hide EncodeUpTo, AppendVarint, AppendBytes, UInt64, SocketFamily, SocketProtocol, AddrBytes, PortOf;
    var remotePort := Port(r.remote);
    var localPort := Port(r.local);
    msg := [];
    msg := AppendVarint(msg, 1, 6);
    EncodeNext(fs, 0);
    msg := AppendVarint(msg, 2, SocketFamily(r.remote));
    EncodeNext(fs, 1);
    msg := AppendVarint(msg, 3, SocketProtocol(r.transport));
    EncodeNext(fs, 2);
    msg := AppendBytes(msg, 4, AddrBytes(r.remote));
    EncodeNext(fs, 3);
    msg := AppendBytes(msg, 5, AddrBytes(r.local));
    EncodeNext(fs, 4);
    msg := AppendVarint(msg, 6, remotePort);
    EncodeNext(fs, 5);
    msg := AppendVarint(msg, 7, localPort);
    EncodeNext(fs, 6);
    msg := AppendVarint(msg, 8, UInt64(r.qt.sec));
    EncodeNext(fs, 7);
    msg := AppendVarint(msg, 9, UInt64(r.qt.nsec));
    EncodeNext(fs, 8);
    msg := AppendBytes(msg, 10, r.query.value);
    EncodeNext(fs, 9);
    msg := AppendVarint(msg, 11, UInt64(r.rt.sec));
    EncodeNext(fs, 10);
    msg := AppendVarint(msg, 12, UInt64(r.rt.nsec));
    EncodeNext(fs, 11);
    msg := AppendBytes(msg, 13, r.response.value);
    EncodeNext(fs, 12);
  }

  /** Wraps it in the outer one. */
  method Frame(r: Record) returns (frame: Option<bytes>)
    ensures frame == FrameOf(r)
    ensures frame.Some? <==> r.query.Some? && r.response.Some?
    ensures frame.Some? ==> var fs := ReadMessage(frame.value); fs.Some? && IsMessage(fs.value, r)
  {
    if r.query.None? {
      return None;
    }
    if r.response.None? {
      return None;
    }
    var msg := Message(r);
    ghost var fs := FrameFields(r);
    var dt := [];
    dt := AppendVarint(dt, 1, 1);
    EncodeNext(fs, 0);
    dt := AppendBytes(dt, 14, msg);
    EncodeNext(fs, 1);
    frame := Some(dt);
    FrameIsRead(r);
  }

  /** A decoder gets back from a frame the two outer fields and, from the second, the fields of the message in
      order, but for the empty ones. The frame is never empty, and neither is the message in it. */
  lemma FrameDecodes(r: Record)
    requires Packs(r)
    ensures var msg := Encode(MessageFields(r));
            && msg != []
            && FrameOf(r).value != []
            && Decode(FrameOf(r).value) == Some([VarintField(1, 1), BytesField(14, msg)])
            && Decode(msg) == Some(Present(MessageFields(r)))
  {
    var fs := MessageFields(r);
    EncodeDecodes(fs);
    assert Present(fs)[0] == fs[0];
    assert Encode(fs) != [] by {
      assert Decode([]) == Some([]);
    }
    EncodeDecodes(FrameFields(r));
    PresentTwo(VarintField(1, 1), BytesField(14, Encode(fs)));
  }

  lemma PresentTwo(a: Field, b: Field)
    requires a.VarintField? && b.BytesField? && b.bs != []
    ensures Present([a, b]) == [a, b]
  {
    assert [a, b][1..] == [b] && [b][1..] == [];
    assert Present([b]) == [b];
  }

  /** Two records with the same frame have the same fields, apart from empty ones. */
  lemma FrameInjective(r: Record, s: Record)
    requires Packs(r) && Packs(s) && FrameOf(r) == FrameOf(s)
    ensures Present(MessageFields(r)) == Present(MessageFields(s))
  {
    FrameDecodes(r);
    FrameDecodes(s);
    assert Decode(FrameOf(r).value).value[1] == Decode(FrameOf(s).value).value[1];
  }
}
