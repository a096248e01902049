/** The stream that dnstap frames are sent in (internal/dnstap/dnstap.go): every payload is preceded by its length,
    and a length of zero announces a control frame instead. */
module DnstapStream {
  import opened Common
  import opened DnstapWire

  const TWO_32: nat := 0x1_0000_0000

  /** A number as a big-endian 32-bit word. */
  function BE32(n: nat): (r: bytes)
    ensures |r| == 4
  {
    var w := n % TWO_32;
    [w / 0x100_0000, w / 0x1_0000 % 0x100, w / 0x100 % 0x100, w % 0x100]
  }

  function FromBE32(bs: bytes): (n: nat)
    requires 4 <= |bs|
    ensures n < TWO_32
  {
    var b0: int, b1: int, b2: int, b3: int := bs[0], bs[1], bs[2], bs[3];
    b0 * 0x100_0000 + b1 * 0x1_0000 + b2 * 0x100 + b3
  }

  lemma {:induction false} WordDecodes(n: nat, rest: bytes)
    ensures FromBE32(BE32(n) + rest) == n % TWO_32
  {
    var w := n % TWO_32;
    var a := w / 0x100;
    var b := a / 0x100;
    assert w == a * 0x100 + w % 0x100 && a == b * 0x100 + a % 0x100 && b == b / 0x100 * 0x100 + b % 0x100;
    assert w / 0x1_0000 == b && w / 0x100_0000 == b / 0x100;
  }

  datatype Item = Control(typ: nat, contentType: bytes) | Data(payload: bytes)

  const READY: nat := 4
  const START: nat := 2
  const FIELD_CONTENT_TYPE: nat := 1

  function ControlPayload(typ: nat, contentType: bytes): bytes {
    if contentType == [] then BE32(typ)
    else BE32(typ) + (BE32(FIELD_CONTENT_TYPE) + (BE32(|contentType|) + contentType))
  }

  /** The bytes written for an item. */
  function EncodeItem(it: Item): bytes {
    match it
    case Control(typ, contentType) =>
      var payload := ControlPayload(typ, contentType);
      BE32(0) + (BE32(|payload|) + payload)
    case Data(payload) => BE32(|payload|) + payload
  }

  /** The lengths fit their words, and a data frame is not empty. */
  predicate Sendable(it: Item) {
    match it
    case Control(typ, contentType) => typ < TWO_32 && |contentType| + 12 < TWO_32
    case Data(payload) => 0 < |payload| < TWO_32
  }

  // ---------- a decoder ----------

  function DecodeControl(p: bytes): Option<Item> {
    if |p| < 4 then None
    else if |p| == 4 then Some(Control(FromBE32(p), []))
    else if |p| < 12 || FromBE32(p[4..]) != 1 || FromBE32(p[8..]) != |p| - 12 then None
    else Some(Control(FromBE32(p), p[12..]))
  }

  /** The first item, and how many bytes it takes; nothing while it is incomplete. */
  function NextItem(bs: bytes): (r: Option<(Item, nat)>)
    ensures r.Some? ==> 0 < r.value.1 <= |bs|
  {
    if |bs| < 4 then None
    else
      var n := FromBE32(bs);
      if n > 0 then
        if |bs| < 4 + n then None else Some((Data(bs[4..4 + n]), 4 + n))
      else if |bs| < 8 then None
      else
        var m := FromBE32(bs[4..]);
        if |bs| < 8 + m then None
        else match DecodeControl(bs[8..8 + m])
          case None => None
          case Some(it) => Some((it, 8 + m))
  }

  /** All the complete items, and what is left. */
  function DecodeStream(bs: bytes): (seq<Item>, bytes) {
    match NextItem(bs)
    case None => ([], bs)
    case Some((it, n)) =>
      var (rest, tail) := DecodeStream(bs[n..]);
      ([it] + rest, tail)
  }

  // ---------- it undoes the encoding ----------

  lemma Prefixed(w: bytes, rest: bytes)
    requires |w| == 4
    ensures (w + rest)[4..] == rest
  {
  }

  lemma ControlDecodes(typ: nat, contentType: bytes)
    requires typ < TWO_32 && |contentType| + 12 < TWO_32
    ensures DecodeControl(ControlPayload(typ, contentType)) == Some(Control(typ, contentType))
    ensures 4 <= |ControlPayload(typ, contentType)| < TWO_32
  {
    if contentType == [] {
      assert BE32(typ) + [] == BE32(typ);
      WordDecodes(typ, []);
    } else {
      var last := BE32(|contentType|) + contentType;
      var p := ControlPayload(typ, contentType);
      WordDecodes(typ, BE32(FIELD_CONTENT_TYPE) + last);
      WordDecodes(FIELD_CONTENT_TYPE, last);
      WordDecodes(|contentType|, contentType);
      hide BE32, FromBE32;
      Prefixed(BE32(typ), BE32(FIELD_CONTENT_TYPE) + last);
      Prefixed(BE32(FIELD_CONTENT_TYPE), last);
      Prefixed(BE32(|contentType|), contentType);
      assert p[8..] == p[4..][4..] && p[12..] == p[4..][4..][4..];
    }
  }

  /** One item is read back, whatever follows it. */
  lemma {:induction false} ItemDecodes(it: Item, rest: bytes)
    requires Sendable(it)
    ensures NextItem(EncodeItem(it) + rest) == Some((it, |EncodeItem(it)|))
  {
    match it
    case Data(payload) => DataDecodes(payload, rest);
    case Control(typ, contentType) =>
      var payload := ControlPayload(typ, contentType);
      ControlDecodes(typ, contentType);
      ControlItemDecodes(payload, rest);
  }

  lemma {:induction false} ControlItemDecodes(payload: bytes, rest: bytes)
    requires |payload| < TWO_32 && DecodeControl(payload).Some?
    ensures var enc := BE32(0) + (BE32(|payload|) + payload);
            NextItem(enc + rest) == Some((DecodeControl(payload).value, |enc|))
  {
    hide BE32, FromBE32, DecodeControl;
    var enc := BE32(0) + (BE32(|payload|) + payload);
    WordDecodes(0, BE32(|payload|) + (payload + rest));
    WordDecodes(|payload|, payload + rest);
    assert enc + rest == BE32(0) + (BE32(|payload|) + (payload + rest));
    Prefixed(BE32(0), BE32(|payload|) + (payload + rest));
    Prefixed(BE32(|payload|), payload + rest);
    assert (enc + rest)[8..] == (enc + rest)[4..][4..];
    assert (enc + rest)[8..8 + |payload|] == (enc + rest)[8..][..|payload|] == payload;
  }

  lemma {:induction false} DataDecodes(payload: bytes, rest: bytes)
    requires 0 < |payload| < TWO_32
    ensures var enc := BE32(|payload|) + payload;
            NextItem(enc + rest) == Some((Data(payload), |enc|))
  {
    var enc := BE32(|payload|) + payload;
    WordDecodes(|payload|, payload + rest);
    hide BE32, FromBE32;
    assert enc + rest == BE32(|payload|) + (payload + rest);
    Prefixed(BE32(|payload|), payload + rest);
    assert (enc + rest)[4..4 + |payload|] == (enc + rest)[4..][..|payload|] == payload;
  }

  /** Exactly which payloads survive: an empty one would announce a control frame, and the length of one of 2^32
      bytes or more does not fit its word. */
  lemma {:induction false} DataDecodesIff(payload: bytes, rest: bytes)
    ensures NextItem(EncodeItem(Data(payload)) + rest) == Some((Data(payload), |EncodeItem(Data(payload))|)) <==>
            0 < |payload| < TWO_32
  {
    if 0 < |payload| < TWO_32 {
      DataDecodes(payload, rest);
    } else {
      var enc := BE32(|payload|) + payload;
      assert enc + rest == BE32(|payload|) + (payload + rest);
      WordDecodes(|payload|, payload + rest);
      assert |payload| % TWO_32 != |payload| || |payload| == 0;
      hide BE32, FromBE32, DecodeControl;
    }
  }

  lemma PartialData(payload: bytes, n: nat)
    requires 0 < |payload| < TWO_32 && n < |EncodeItem(Data(payload))|
    ensures NextItem(EncodeItem(Data(payload))[..n]).None?
  {
    if 4 <= n {
      var part := payload[..n - 4];
      WordDecodes(|payload|, part);
      hide BE32, FromBE32, DecodeControl;
      assert EncodeItem(Data(payload))[..n] == BE32(|payload|) + part;
    }
  }

  lemma PartialControl(payload: bytes, n: nat)
    requires |payload| < TWO_32 && n < 8 + |payload|
    ensures NextItem((BE32(0) + (BE32(|payload|) + payload))[..n]).None?
  {
    hide BE32, FromBE32, DecodeControl;
    var enc := BE32(0) + (BE32(|payload|) + payload);
    if 4 <= n < 8 {
      WordDecodes(0, BE32(|payload|)[..n - 4]);
      assert enc[..n] == BE32(0) + BE32(|payload|)[..n - 4];
    } else if 8 <= n {
      var part := payload[..n - 8];
      WordDecodes(0, BE32(|payload|) + part);
      WordDecodes(|payload|, part);
      assert enc[..n] == BE32(0) + (BE32(|payload|) + part);
      Prefixed(BE32(0), BE32(|payload|) + part);
    }
  }

  /** Part of an item is not an item. */
  lemma {:induction false} PartialItem(it: Item, n: nat)
    requires Sendable(it) && n < |EncodeItem(it)|
    ensures NextItem(EncodeItem(it)[..n]).None?
  {
    hide NextItem;
    match it
    case Data(payload) => PartialData(payload, n);
    case Control(typ, contentType) =>
      ControlDecodes(typ, contentType);
      PartialControl(ControlPayload(typ, contentType), n);
  }

  function EncodeItems(items: seq<Item>): bytes {
    if items == [] then [] else EncodeItem(items[0]) + EncodeItems(items[1..])
  }

  lemma {:induction false} EncodeItemsAppend(items: seq<Item>, it: Item)
    ensures EncodeItems(items + [it]) == EncodeItems(items) + EncodeItem(it)
  {
    if items == [] {
      assert [it][1..] == [];
      assert items + [it] == [it];
    } else {
      hide EncodeItem;
      EncodeItemsAppend(items[1..], it);
      assert (items + [it])[1..] == items[1..] + [it];
      assert EncodeItems(items + [it]) == EncodeItem(items[0]) + EncodeItems(items[1..] + [it]);
      Suffixes(EncodeItem(items[0]), EncodeItems(items[1..]), EncodeItem(it));
    }
  }

  /** A stream of whole items, followed by at most part of one, decodes to those items and that part. */
  lemma {:induction false} StreamDecodes(items: seq<Item>, tail: bytes)
    requires forall i | 0 <= i < |items| :: Sendable(items[i])
    requires NextItem(tail).None?
    ensures DecodeStream(EncodeItems(items) + tail) == (items, tail)
  {
    hide NextItem, EncodeItem, Sendable;
    if items == [] {
      assert EncodeItems(items) + tail == tail;
    } else {
      var enc, rest := EncodeItem(items[0]), EncodeItems(items[1..]);
      StreamDecodes(items[1..], tail);
      ItemDecodes(items[0], rest + tail);
      assert EncodeItems(items) + tail == enc + (rest + tail);
      DecodeNext(items[0], enc, rest + tail);
      assert [items[0]] + items[1..] == items;
    }
  }

  lemma DecodeNext(it: Item, enc: bytes, rest: bytes)
    requires NextItem(enc + rest) == Some((it, |enc|))
    ensures DecodeStream(enc + rest) == ([it] + DecodeStream(rest).0, DecodeStream(rest).1)
  {
    hide NextItem;
    assert (enc + rest)[|enc|..] == rest;
  }
}
