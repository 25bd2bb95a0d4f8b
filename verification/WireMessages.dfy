/**
  The messages of the protocol by their named fields: which bytes each of them is on the wire, and what is read back
  from there.
 */
module WireMessages {
  import opened Basics
  import opened WireFormat

  datatype Message =
    | IovMessage(addr: nat, key: nat)
    | PingMessage(rdmaSize: nat, eagerSize: nat, addr: nat, key: nat, eagerData: seq<Byte>)
    | ObjectIdMessage(low: int, high: int)
    | HeaderMessage(msgType: nat, lfClientId: nat, tcpClientId: nat, tcpClientKey: nat)
    | ReadWriteMessage(low: int, high: int, addr: nat, key: nat, offset: nat, size: nat, msgHasData: bool,
                       optionalData: seq<Byte>)
    | FlushMessage(low: int, high: int, offset: nat, size: nat)
    | CreateMessage(low: int, high: int)
    | RegisterRangeMessage(low: int, high: int, offset: nat, size: nat, write: bool)
    | UnregisterRangeMessage(low: int, high: int, offset: nat, size: nat, id: int, write: bool)
    | ObjectCowMessage(sourceLow: int, sourceHigh: int, destLow: int, destHigh: int, allowExist: bool,
                       rangeOffset: nat, rangeSize: nat)
    | ResponseMessage(msgDataSize: nat, status: int, msgHasData: bool, optionalData: seq<Byte>)
    | HandshakeMessage(protocolVersion: int, assignLfClientId: nat)
    | FirstClientMessage(address: seq<Byte>)
    | EmptyMessage
    | ErrorTextMessage(text: seq<Byte>)

  function KindOf(m: Message): Kind {
    match m
    case IovMessage(_, _) => Iov
    case PingMessage(_, _, _, _, _) => Ping
    case ObjectIdMessage(_, _) => ObjectIdent
    case HeaderMessage(_, _, _, _) => Header
    case ReadWriteMessage(_, _, _, _, _, _, _, _) => ReadWrite
    case FlushMessage(_, _, _, _) => FlushInfos
    case CreateMessage(_, _) => CreateInfos
    case RegisterRangeMessage(_, _, _, _, _) => RegisterRange
    case UnregisterRangeMessage(_, _, _, _, _, _) => UnregisterRange
    case ObjectCowMessage(_, _, _, _, _, _, _) => ObjectCow
    case ResponseMessage(_, _, _, _) => Response
    case HandshakeMessage(_, _) => Handshake
    case FirstClientMessage(_) => FirstClient
    case EmptyMessage => Empty
    case ErrorTextMessage(_) => ErrorMessage
  }

  // ---- Bytes ---------------------------------------------------------------------------------------

  /** The integer without its `j` least significant bytes. */
  function Shift(v: int, j: nat): int
    decreases j
  {
    if j == 0 then v else Shift(v / 256, j - 1)
  }

  /** The bytes of an integer of `n` bytes, least significant first and negative ones in two's complement. */
  function Le(v: int, n: nat): seq<Byte> {
    seq(n, j requires 0 <= j < n => (Shift(v, j) % 256) as Byte)
  }

  function Flag(b: bool): seq<Byte> { if b then [1] else [0] }

  /** What each field of a message is on the wire, in order. */
  function Parts(m: Message): seq<seq<Byte>> {
    match m
    case IovMessage(addr, key) => [Le(addr, 8), Le(key, 8)]
    case PingMessage(rdmaSize, eagerSize, addr, key, eagerData) =>
      [Le(rdmaSize, 8), Le(eagerSize, 8), Le(addr, 8), Le(key, 8)] + (if eagerSize > 0 then [eagerData] else [])
    case ObjectIdMessage(low, high) => [Le(low, 8), Le(high, 8)]
    case HeaderMessage(msgType, lfClientId, tcpClientId, tcpClientKey) =>
      [Le(msgType, 8), Le(lfClientId, 8), Le(tcpClientId, 8), Le(tcpClientKey, 8)]
    case ReadWriteMessage(low, high, addr, key, offset, size, msgHasData, optionalData) =>
      [Le(low, 8), Le(high, 8), Le(addr, 8), Le(key, 8), Le(offset, 8), Le(size, 8), Flag(msgHasData)]
      + (if msgHasData then [optionalData] else [])
    case FlushMessage(low, high, offset, size) => [Le(low, 8), Le(high, 8), Le(offset, 8), Le(size, 8)]
    case CreateMessage(low, high) => [Le(low, 8), Le(high, 8)]
    case RegisterRangeMessage(low, high, offset, size, write) =>
      [Le(low, 8), Le(high, 8), Le(offset, 8), Le(size, 8), Flag(write)]
    case UnregisterRangeMessage(low, high, offset, size, id, write) =>
      [Le(low, 8), Le(high, 8), Le(offset, 8), Le(size, 8), Le(id, 4), Flag(write)]
    case ObjectCowMessage(sourceLow, sourceHigh, destLow, destHigh, allowExist, rangeOffset, rangeSize) =>
      [Le(sourceLow, 8), Le(sourceHigh, 8), Le(destLow, 8), Le(destHigh, 8), Flag(allowExist), Le(rangeOffset, 8),
       Le(rangeSize, 8)]
    case ResponseMessage(msgDataSize, status, msgHasData, optionalData) =>
      [Le(msgDataSize, 8), Le(status, 4), Flag(msgHasData)] + (if msgHasData then [optionalData] else [])
    case HandshakeMessage(protocolVersion, assignLfClientId) => [Le(protocolVersion, 4), Le(assignLfClientId, 8)]
    case FirstClientMessage(address) => [address]
    case EmptyMessage => []
    case ErrorTextMessage(text) => [Le(|text| + 1, 8) + text + [0]]
  }

  function Concat(fragments: seq<seq<Byte>>): seq<Byte> {
    if fragments == [] then [] else Concat(fragments[..|fragments| - 1]) + fragments[|fragments| - 1]
  }

  /** The message on the wire. */
  function Image(m: Message): seq<Byte> { Concat(Parts(m)) }

  // ---- Fields --------------------------------------------------------------------------------------

  /** The fields every message of the kind has. */
  function Head(m: Message): seq<Value> {
    match m
    case IovMessage(addr, key) => [VU64(addr), VU64(key)]
    case PingMessage(rdmaSize, eagerSize, addr, key, _) => [VU64(rdmaSize), VU64(eagerSize), VU64(addr), VU64(key)]
    case ObjectIdMessage(low, high) => [VI64(low), VI64(high)]
    case HeaderMessage(msgType, lfClientId, tcpClientId, tcpClientKey) =>
      [VU64(msgType), VU64(lfClientId), VU64(tcpClientId), VU64(tcpClientKey)]
    case ReadWriteMessage(low, high, addr, key, offset, size, msgHasData, _) =>
      [VI64(low), VI64(high), VU64(addr), VU64(key), VU64(offset), VU64(size), VBool(msgHasData)]
    case FlushMessage(low, high, offset, size) => [VI64(low), VI64(high), VU64(offset), VU64(size)]
    case CreateMessage(low, high) => [VI64(low), VI64(high)]
    case RegisterRangeMessage(low, high, offset, size, write) =>
      [VI64(low), VI64(high), VU64(offset), VU64(size), VBool(write)]
    case UnregisterRangeMessage(low, high, offset, size, id, write) =>
      [VI64(low), VI64(high), VU64(offset), VU64(size), VI32(id), VBool(write)]
    case ObjectCowMessage(sourceLow, sourceHigh, destLow, destHigh, allowExist, rangeOffset, rangeSize) =>
      [VI64(sourceLow), VI64(sourceHigh), VI64(destLow), VI64(destHigh), VBool(allowExist), VU64(rangeOffset),
       VU64(rangeSize)]
    case ResponseMessage(msgDataSize, status, msgHasData, _) => [VU64(msgDataSize), VI32(status), VBool(msgHasData)]
    case HandshakeMessage(protocolVersion, assignLfClientId) => [VI32(protocolVersion), VU64(assignLfClientId)]
    case FirstClientMessage(address) => [VRaw(address)]
    case EmptyMessage => []
    case ErrorTextMessage(text) => [VStr(text)]
  }

  /** The data a message carries behind its fields. */
  function Carried(m: Message): Option<seq<Byte>> {
    match m
    case PingMessage(_, eagerSize, _, _, eagerData) => if eagerSize > 0 then Some(eagerData) else None
    case ReadWriteMessage(_, _, _, _, _, _, msgHasData, optionalData) =>
      if msgHasData then Some(optionalData) else None
    case ResponseMessage(_, _, msgHasData, optionalData) => if msgHasData then Some(optionalData) else None
    case _ => None
  }

  /** The size the message announces for that data. */
  function Announced(m: Message): nat {
    match m
    case PingMessage(_, eagerSize, _, _, _) => eagerSize
    case ReadWriteMessage(_, _, _, _, _, size, _, _) => size
    case ResponseMessage(msgDataSize, _, _, _) => msgDataSize
    case _ => 0
  }

  function Fields(m: Message): seq<Value> {
    Head(m) + if Carried(m).Some? then [VRaw(Carried(m).value)] else []
  }

  /** Every field fits its C type; an address is an array of fixed length. */
  predicate Typed(m: Message) {
    (forall i | 0 <= i < |Head(m)| :: InBounds(Head(m)[i])) && (m.FirstClientMessage? ==> |m.address| == ADDR_LEN)
  }

  /** The carried data has the announced size. */
  predicate Sized(m: Message) {
    && (m.PingMessage? && m.eagerSize > 0 ==> |m.eagerData| == m.eagerSize)
    && (m.ReadWriteMessage? && m.msgHasData ==> |m.optionalData| == m.size)
    && (m.ResponseMessage? && m.msgHasData ==> |m.optionalData| == m.msgDataSize)
  }

  // ---- Packing -------------------------------------------------------------------------------------

  lemma {:induction false} ByteOf(v: nat, n: nat, j: nat)
    requires j < n
    ensures ToBytes(v, n)[j] as int == Shift(v, j) % 256
  {
    if j > 0 { ByteOf(v / 256, n - 1, j - 1); }
  }

  lemma {:induction false} Wraps(i: int, n: nat, j: nat)
    requires j < n
    ensures Shift(i + Pow256(n), j) % 256 == Shift(i, j) % 256
    decreases j
  {
    var p := Pow256(n - 1);
    assert Pow256(n) == 256 * p;
    if j > 0 {
      Wraps(i / 256, n - 1, j - 1);
      assert (i + 256 * p) / 256 == i / 256 + p;
    }
  }

  lemma BytesOf(v: int, n: nat)
    requires v >= 0 || v + Pow256(n) >= 0
    ensures ToBytes(if v < 0 then v + Pow256(n) else v, n) == Le(v, n)
  {
    hide Pow256, Shift, ToBytes;
    var u := if v < 0 then v + Pow256(n) else v;
    forall j | 0 <= j < n ensures ToBytes(u, n)[j] == Le(v, n)[j] {
      ByteOf(u, n, j);
      Wraps(v, n, j);
    }
  }

  /** The bytes of each field. */
  lemma EncodeIs(v: Value)
    requires InBounds(v)
    ensures v.VU64? ==> Encode(v) == Le(v.u, 8)
    ensures v.VI64? ==> Encode(v) == Le(v.i, 8)
    ensures v.VI32? ==> Encode(v) == Le(v.i, 4)
    ensures v.VBool? ==> Encode(v) == Flag(v.b)
    ensures v.VRaw? ==> Encode(v) == v.raw
    ensures v.VStr? ==> Encode(v) == Le(|v.chars| + 1, 8) + v.chars + [0]
  {
    hide Pow256, ToBytes, Le;
    WordSizes();
    match v {
      case VU64(u) => BytesOf(u, 8);
      case VI64(i) => BytesOf(i, 8);
      case VI32(i) => BytesOf(i, 4);
      case VStr(s) => BytesOf(|s| + 1, 8);
      case _ =>
    }
  }

  lemma {:induction false} PackIs(vals: seq<Value>, parts: seq<seq<Byte>>)
    requires |vals| == |parts| && forall i | 0 <= i < |vals| :: InBounds(vals[i]) && Encode(vals[i]) == parts[i]
    ensures Pack(vals) == Concat(parts)
  {
    hide InBounds, Encode;
    if vals != [] {
      PackIs(vals[..|vals| - 1], parts[..|parts| - 1]);
    }
  }

  lemma FieldsTyped(m: Message)
    requires Typed(m)
    ensures forall i | 0 <= i < |Fields(m)| :: InBounds(Fields(m)[i])
  {
    hide Head, Carried;
    forall i | 0 <= i < |Fields(m)| ensures InBounds(Fields(m)[i]) {
      if i < |Head(m)| { assert Fields(m)[i] == Head(m)[i]; }
    }
  }

  lemma PartsAre(m: Message, i: nat)
    requires Typed(m) && i < |Fields(m)|
    ensures |Parts(m)| == |Fields(m)| && InBounds(Fields(m)[i]) && Encode(Fields(m)[i]) == Parts(m)[i]
  {
    hide Encode, Le, InBounds;
    FieldsTyped(m);
    EncodeIs(Fields(m)[i]);
  }

  /** Packing a message of any kind gives exactly the bytes of its named fields, one after the other. */
  lemma PackMessage(m: Message)
    requires Typed(m)
    ensures (forall i | 0 <= i < |Fields(m)| :: InBounds(Fields(m)[i])) && Pack(Fields(m)) == Image(m)
  {
    hide Fields, Parts, Encode, InBounds, Typed;
    FieldsTyped(m);
    PartsCount(m);
    forall i | 0 <= i < |Fields(m)| ensures Encode(Fields(m)[i]) == Parts(m)[i] { PartsAre(m, i); }
    PackIs(Fields(m), Parts(m));
  }

  lemma PartsCount(m: Message)
    ensures |Parts(m)| == |Fields(m)|
  {
    hide Le;
  }

  // ---- Unpacking -----------------------------------------------------------------------------------

  /** Values of the types that every message of the kind starts with. */
  ghost predicate StartOf(k: Kind, vals: seq<Value>) {
    && |vals| == |Fixed(k)|
    && forall i | 0 <= i < |vals| ::
         TypeOf(vals[i]) == Fixed(k)[i] && InBounds(vals[i]) && (vals[i].VStr? ==> NulFree(vals[i].chars))
  }

  lemma {:induction false} UnpackStart(k: Kind, vals: seq<Value>, rest: seq<Byte>, i: nat)
    requires StartOf(k, vals) && i <= |vals|
    ensures |Pack(vals[..i])| <= |Pack(vals)|
    ensures Unpack(k, Pack(vals) + rest, 0, []) == Unpack(k, Pack(vals) + rest, |Pack(vals[..i])|, vals[..i])
  {
    hide Decode, Encode, InBounds, Fixed, Tail, NulFree;
    PackPrefix(vals, i);
    if i == 0 {
      assert vals[..0] == [];
    } else {
      UnpackStart(k, vals, rest, i - 1);
      PackPrefix(vals, i - 1);
      assert vals[..i][..i - 1] == vals[..i - 1];
      var pre, e := Pack(vals[..i - 1]), Encode(vals[i - 1]);
      var post := Pack(vals)[|pre| + |e|..] + rest;
      assert Pack(vals[..i]) == pre + e;
      assert Pack(vals) + rest == pre + e + post;
      FieldRoundTrip(vals[i - 1], pre, post);
      assert vals[..i - 1] + [vals[i - 1]] == vals[..i];
    }
  }

  /** The description of each kind asks for exactly the fields of its messages, and for data of the announced size. */
  lemma Described(m: Message)
    requires Typed(m)
    ensures |Head(m)| == |Fixed(KindOf(m))|
            && forall i | 0 <= i < |Head(m)| :: TypeOf(Head(m)[i]) == Fixed(KindOf(m))[i]
    ensures Tail(KindOf(m), Head(m)) == if Carried(m).Some? then Some(TRaw(Announced(m))) else None
  {
    hide InBounds;
  }

  lemma HeadStarts(m: Message)
    requires Typed(m) && (m.ErrorTextMessage? ==> NulFree(m.text))
    ensures StartOf(KindOf(m), Head(m))
  {
    Described(m);
  }

  lemma UnpackAfterHead(m: Message, rest: seq<Byte>)
    requires Typed(m) && (m.ErrorTextMessage? ==> NulFree(m.text))
    ensures StartOf(KindOf(m), Head(m))
    ensures var buf, head := Pack(Head(m)) + rest, Head(m);
            Unpack(KindOf(m), buf, 0, []) ==
            if Carried(m).None? then Some((head, |Pack(head)|))
            else if Announced(m) <= |rest| then Some((head + [VRaw(rest[..Announced(m)])], |Pack(head)| + Announced(m)))
            else None
  {
    hide Head, Typed, StartOf, Fixed, Tail, KindOf, Pack, NulFree, Carried, Announced;
    Described(m);
    HeadStarts(m);
    var k, head := KindOf(m), Head(m);
    StartLength(k, head);
    UnpackStart(k, head, rest, |head|);
    assert head[..|head|] == head;
    var buf := Pack(head) + rest;
    var n := Announced(m);
    if Carried(m).Some? && n <= |rest| {
      assert buf[|Pack(head)|..|Pack(head)| + n] == rest[..n];
    }
  }

  lemma StartLength(k: Kind, vals: seq<Value>)
    requires StartOf(k, vals)
    ensures |vals| == |Fixed(k)| && forall i | 0 <= i < |vals| :: InBounds(vals[i])
  {
    hide InBounds, NulFree, Fixed;
  }

  lemma PackFields(m: Message)
    requires Typed(m)
    ensures (forall i | 0 <= i < |Head(m)| :: InBounds(Head(m)[i]))
    ensures Image(m) == Pack(Head(m)) + if Carried(m).Some? then Carried(m).value else []
  {
    hide Head, Carried, InBounds, Image;
    PackMessage(m);
    if Carried(m).Some? {
      assert Fields(m)[..|Head(m)|] == Head(m);
    } else {
      assert Fields(m) == Head(m);
    }
  }

  /**
    A message of any kind is read back from its bytes, whatever follows them, field by field and up to the byte where it
    ends, exactly if the data it carries has the announced size and its text has no NUL inside.
   */
  lemma MessageRoundTrip(m: Message, suffix: seq<Byte>)
    requires Typed(m)
    ensures Unpack(KindOf(m), Image(m) + suffix, 0, []) == Some((Fields(m), |Image(m)|)) <==>
              Sized(m) && (m.ErrorTextMessage? ==> NulFree(m.text))
  {
    hide Head, Typed, StartOf, Fixed, Tail, Pack, NulFree, Image, Unpack, InBounds;
    PackFields(m);
    if m.ErrorTextMessage? {
      TextRoundTrip(m, suffix);
    } else {
      var data := if Carried(m).Some? then Carried(m).value else [];
      assert Image(m) + suffix == Pack(Head(m)) + (data + suffix);
      UnpackAfterHead(m, data + suffix);
      if Carried(m).Some? && |data| == Announced(m) { assert (data + suffix)[..|data|] == data; }
      assert Carried(m).Some? ==> Fields(m)[|Head(m)|] == VRaw(data);
      assert Carried(m).None? ==> Fields(m) == Head(m);
    }
  }

  lemma TextRoundTrip(m: Message, suffix: seq<Byte>)
    requires Typed(m) && m.ErrorTextMessage?
    ensures Unpack(KindOf(m), Image(m) + suffix, 0, []) == Some((Fields(m), |Image(m)|)) <==> NulFree(m.text)
  {
    hide NulFree, Unpack, Pack, Image;
    PackMessage(m);
    assert InBounds(Head(m)[0]);
    assert Fields(m) == [VStr(m.text)];
    NulTextIsCut(m.text, suffix);
  }

  /** The complete messages of the description are the messages by name, with data of the announced size. */
  lemma MessagesByName(k: Kind, vals: seq<Value>)
    ensures IsMessage(k, vals) <==> exists m :: KindOf(m) == k && Fields(m) == vals && Typed(m) && Sized(m)
  {
    hide IsMessage, Fields, Typed, Sized, KindOf;
    if IsMessage(k, vals) {
      var m := ByName(k, vals);
      assert KindOf(m) == k && Fields(m) == vals;
    }
    if m :| KindOf(m) == k && Fields(m) == vals && Typed(m) && Sized(m) { FieldsAreMessage(m); }
  }

  lemma FieldsAreMessage(m: Message)
    requires Typed(m) && Sized(m)
    ensures IsMessage(KindOf(m), Fields(m))
  {
    hide Head, Typed, Fixed, Tail, InBounds;
    var k, vals := KindOf(m), Fields(m);
    Described(m);
    FieldsTyped(m);
    forall i | 0 <= i < |vals| ensures Next(k, vals[..i]) == Some(TypeOf(vals[i])) {
      if i == |Head(m)| { assert vals[..i] == Head(m); }
    }
    assert Carried(m).None? ==> vals == Head(m);
  }

  lemma StartTypes(k: Kind, vals: seq<Value>)
    requires IsMessage(k, vals)
    ensures |Fixed(k)| <= |vals| <= |Fixed(k)| + 1
    ensures forall i | 0 <= i < |Fixed(k)| :: TypeOf(vals[i]) == Fixed(k)[i] && InBounds(vals[i])
    ensures Tail(k, vals[..|Fixed(k)|]) ==
            if |vals| == |Fixed(k)| then None else Some(TypeOf(vals[|Fixed(k)|]))
  {
    hide Fixed, Tail, InBounds;
    var n := |Fixed(k)|;
    forall i | 0 <= i < n && i < |vals| ensures TypeOf(vals[i]) == Fixed(k)[i] {
      assert Next(k, vals[..i]) == Some(TypeOf(vals[i]));
    }
    if |vals| > n {
      assert Next(k, vals[..n]) == Some(TypeOf(vals[n]));
    } else {
      assert vals[..|vals|] == vals;
    }
  }

  /** Values of the types of the fields every message of the kind has. */
  ghost predicate HeadTyped(k: Kind, v: seq<Value>) {
    |v| == |Fixed(k)| && forall i | 0 <= i < |v| :: TypeOf(v[i]) == Fixed(k)[i]
  }

  /** The message with these fields and this data. */
  ghost function Named(k: Kind, v: seq<Value>, data: seq<Byte>): Message
    requires HeadTyped(k, v)
  {
    match k
    case Iov => IovMessage(v[0].u, v[1].u)
    case Ping => PingMessage(v[0].u, v[1].u, v[2].u, v[3].u, data)
    case ObjectIdent => ObjectIdMessage(v[0].i, v[1].i)
    case Header => HeaderMessage(v[0].u, v[1].u, v[2].u, v[3].u)
    case ReadWrite => ReadWriteMessage(v[0].i, v[1].i, v[2].u, v[3].u, v[4].u, v[5].u, v[6].b, data)
    case FlushInfos => FlushMessage(v[0].i, v[1].i, v[2].u, v[3].u)
    case CreateInfos => CreateMessage(v[0].i, v[1].i)
    case RegisterRange => RegisterRangeMessage(v[0].i, v[1].i, v[2].u, v[3].u, v[4].b)
    case UnregisterRange => UnregisterRangeMessage(v[0].i, v[1].i, v[2].u, v[3].u, v[4].i, v[5].b)
    case ObjectCow => ObjectCowMessage(v[0].i, v[1].i, v[2].i, v[3].i, v[4].b, v[5].u, v[6].u)
    case Response => ResponseMessage(v[0].u, v[1].i, v[2].b, data)
    case Handshake => HandshakeMessage(v[0].i, v[1].u)
    case FirstClient => FirstClientMessage(v[0].raw)
    case Empty => EmptyMessage
    case ErrorMessage => ErrorTextMessage(v[0].chars)
  }

  lemma NamedHead(k: Kind, v: seq<Value>, data: seq<Byte>)
    requires HeadTyped(k, v)
    ensures var m := Named(k, v, data);
            KindOf(m) == k && Head(m) == v && (m.FirstClientMessage? ==> |m.address| == ADDR_LEN)
                && (Carried(m).Some? ==> Carried(m).value == data)
  {
    assert k.FirstClient? ==> TypeOf(v[0]) == Fixed(k)[0];
  }

  lemma SizedIff(m: Message)
    ensures Sized(m) <==> (Carried(m).Some? ==> |Carried(m).value| == Announced(m))
  {
  }

  lemma ByName(k: Kind, vals: seq<Value>) returns (m: Message)
    requires IsMessage(k, vals)
    ensures KindOf(m) == k && Fields(m) == vals && Typed(m) && Sized(m)
  {
    hide IsMessage, Named, Head, Carried, Announced, KindOf, Fixed, Tail, Sized, InBounds;
    StartTypes(k, vals);
    var n := |Fixed(k)|;
    var data := if |vals| > n && vals[n].VRaw? then vals[n].raw else [];
    NamedHead(k, vals[..n], data);
    m := Named(k, vals[..n], data);
    Described(m);
    SizedIff(m);
    assert |vals| == n ==> vals[..n] == vals;
    assert |vals| > n ==> vals == vals[..n] + [vals[n]];
  }

  /** A message is packed into a buffer and read back from there. */
  method Exchange(m: Message, buffer: array<Byte>) returns (sent: bool, r: Option<(seq<Value>, nat)>)
    requires Typed(m)
    modifies buffer
    ensures sent <==> |Image(m)| <= buffer.Length
    ensures sent ==> buffer[..|Image(m)|] == Image(m) && buffer[|Image(m)|..] == old(buffer[|Image(m)|..])
    ensures sent ==> (r == Some((Fields(m), |Image(m)|)) <==>
                      Sized(m) && (m.ErrorTextMessage? ==> NulFree(m.text)))
  {
    hide Image, Typed, Unpack, Pack, Sized, NulFree, InBounds;
    PackMessage(m);
    var cursor;
    sent, cursor := PackInto(buffer, Fields(m));
    r := None;
    if sent {
      r := UnpackAll(KindOf(m), buffer[..]);
      assert buffer[..] == Image(m) + buffer[cursor..];
      MessageRoundTrip(m, buffer[cursor..]);
    }
  }

  // ---- Responses from fragments --------------------------------------------------------------------

  /** Packing a response with data fragments writes them after the header one by one. */
  function PackFragments(size: nat, status: int, fragments: seq<seq<Byte>>): seq<Byte>
    requires size < W64 && InBounds(VI32(status))
  {
    Pack([VU64(size), VI32(status), VBool(true)]) + Concat(fragments)
  }

  /** A response from fragments unpacks to their concatenation exactly if their sizes sum to the announced size. */
  lemma FragmentsRoundTrip(size: nat, status: int, fragments: seq<seq<Byte>>, suffix: seq<Byte>)
    requires size < W64 && InBounds(VI32(status))
    ensures var vals := [VU64(size), VI32(status), VBool(true), VRaw(Concat(fragments))];
            (Unpack(Response, PackFragments(size, status, fragments) + suffix, 0, []) ==
             Some((vals, |PackFragments(size, status, fragments)|))) <==> |Concat(fragments)| == size
  {
    hide Unpack, Pack, Image;
    var m := ResponseMessage(size, status, true, Concat(fragments));
    PackFields(m);
    MessageRoundTrip(m, suffix);
    assert Fields(m) == [VU64(size), VI32(status), VBool(true), VRaw(Concat(fragments))];
  }
}
