/**
  The wire serializer. One description per message kind, `Next`, drives packing, unpacking and size computation, as one
  `applySerializerDef` does in the protocol.
 */
module WireFormat {
  import opened Basics

  const ADDR_LEN := 32

  datatype Type = TBool | TU32 | TU64 | TI32 | TI64 | TRaw(n: nat) | TStr

  datatype Value =
    | VBool(b: bool)
    | VU32(u: nat)
    | VU64(u: nat)
    | VI32(i: int)
    | VI64(i: int)
    | VRaw(raw: seq<Byte>)
    | VStr(chars: seq<Byte>)

  function TypeOf(v: Value): Type {
    match v
    case VBool(_) => TBool
    case VU32(_) => TU32
    case VU64(_) => TU64
    case VI32(_) => TI32
    case VI64(_) => TI64
    case VRaw(raw) => TRaw(|raw|)
    case VStr(_) => TStr
  }

  const W32 := 0x1_0000_0000
  const W64 := 0x1_0000_0000_0000_0000

  /** The value fits its C type; a string has a length that fits its header. */
  predicate InBounds(v: Value) {
    match v
    case VBool(_) => true
    case VU32(u) => u < W32
    case VU64(u) => u < W64
    case VI32(i) => -0x8000_0000 <= i < 0x8000_0000
    case VI64(i) => -0x8000_0000_0000_0000 <= i < 0x8000_0000_0000_0000
    case VRaw(_) => true
    case VStr(s) => |s| + 1 < W64
  }

  // ---- Integers as bytes -------------------------------------------------------------------------

  function Pow256(n: nat): nat { if n == 0 then 1 else 256 * Pow256(n - 1) }

  /** `n` bytes, least significant first, as `memcpy` of an integer stores them. */
  function ToBytes(v: nat, n: nat): (r: seq<Byte>)
    ensures |r| == n
  {
    if n == 0 then [] else [(v % 256) as Byte] + ToBytes(v / 256, n - 1)
  }

  function FromBytes(s: seq<Byte>): nat {
    if s == [] then 0 else s[0] as nat + 256 * FromBytes(s[1..])
  }

  lemma {:induction false} IntRoundTrip(v: nat, n: nat)
    requires v < Pow256(n)
    ensures FromBytes(ToBytes(v, n)) == v
  {
    if n > 0 {
      IntRoundTrip(v / 256, n - 1);
      assert ToBytes(v, n)[1..] == ToBytes(v / 256, n - 1);
    }
  }

  lemma WordSizes()
    ensures Pow256(4) == W32 && Pow256(8) == W64
  {
    assert Pow256(2) == 0x1_0000;
    assert Pow256(4) == 256 * (256 * Pow256(2));
    assert Pow256(6) == 256 * (256 * Pow256(4));
  }

  function Unsigned(i: int, w: nat): int { if i < 0 then i + w else i }

  function Signed(u: nat, w: nat): int { if u >= w / 2 then u - w else u }

  // ---- Fields ------------------------------------------------------------------------------------

  function Encode(v: Value): seq<Byte>
    requires InBounds(v)
  {
    match v
    case VBool(b) => [if b then 1 else 0]
    case VU32(u) => ToBytes(u, 4)
    case VU64(u) => ToBytes(u, 8)
    case VI32(i) => ToBytes(Unsigned(i, W32), 4)
    case VI64(i) => ToBytes(Unsigned(i, W64), 8)
    case VRaw(raw) => raw
    case VStr(s) => ToBytes(|s| + 1, 8) + s + [0]
  }

  /** The bytes before the first NUL, as the conversion from a C string takes them. */
  function CString(s: seq<Byte>): seq<Byte> {
    if s == [] || s[0] == 0 then [] else [s[0]] + CString(s[1..])
  }

  /** Reads one field; `None` stands for a failed size or terminator check, which stops the process. */
  function Decode(t: Type, buf: seq<Byte>, cur: nat): Option<(Value, nat)>
    requires cur <= |buf|
  {
    match t
    case TBool => if cur + 1 <= |buf| then Some((VBool(buf[cur] != 0), cur + 1)) else None
    case TU32 => if cur + 4 <= |buf| then Some((VU32(FromBytes(buf[cur..cur + 4])), cur + 4)) else None
    case TU64 => if cur + 8 <= |buf| then Some((VU64(FromBytes(buf[cur..cur + 8])), cur + 8)) else None
    case TI32 => if cur + 4 <= |buf| then Some((VI32(Signed(FromBytes(buf[cur..cur + 4]), W32)), cur + 4)) else None
    case TI64 => if cur + 8 <= |buf| then Some((VI64(Signed(FromBytes(buf[cur..cur + 8]), W64)), cur + 8)) else None
    case TRaw(n) => if cur + n <= |buf| then Some((VRaw(buf[cur..cur + n]), cur + n)) else None
    case TStr =>
      if cur + 8 > |buf| then None else
        var len := FromBytes(buf[cur..cur + 8]);
        if len == 0 || cur + 8 + len > |buf| || buf[cur + 8 + len - 1] != 0 then None
        else Some((VStr(CString(buf[cur + 8..cur + 8 + len])), cur + 8 + len))
  }

  predicate NulFree(s: seq<Byte>) { forall i | 0 <= i < |s| :: s[i] != 0 }

  lemma {:induction false} CStringExact(s: seq<Byte>)
    ensures CString(s + [0]) == s <==> NulFree(s)
  {
    if s == [] {
      assert (s + [0])[0] == 0;
    } else {
      CStringExact(s[1..]);
      assert (s + [0])[1..] == s[1..] + [0];
      if s[0] != 0 { assert CString(s + [0]) == [s[0]] + CString(s[1..] + [0]); }
      if NulFree(s) { assert s == [s[0]] + s[1..]; }
      if CString(s + [0]) == s && s[0] != 0 { assert CString(s[1..] + [0]) == s[1..]; }
      assert NulFree(s) <==> s[0] != 0 && NulFree(s[1..]) by {
        assert forall i | 0 <= i < |s| - 1 :: s[1..][i] == s[i + 1];
        if s[0] != 0 && NulFree(s[1..]) { assert forall i | 1 <= i < |s| :: s[1..][i - 1] == s[i]; }
      }
    }
  }

  lemma SignedRoundTrip(i: int, w: nat)
    requires w % 2 == 0 && -(w / 2) <= i < w / 2
    ensures 0 <= Unsigned(i, w) < w && Signed(Unsigned(i, w), w) == i
  {
  }

  lemma FixedRoundTrip(u: nat, n: nat, buf: seq<Byte>, cur: nat)
    requires u < Pow256(n) && cur + n <= |buf| && buf[cur..cur + n] == ToBytes(u, n)
    ensures FromBytes(buf[cur..cur + n]) == u
  {
    IntRoundTrip(u, n);
  }

  /** A field read where it was written comes back, a string exactly if it has no NUL inside. */
  lemma FieldRoundTrip(v: Value, pre: seq<Byte>, post: seq<Byte>)
    requires InBounds(v)
    ensures Decode(TypeOf(v), pre + Encode(v) + post, |pre|) == Some((v, |pre| + |Encode(v)|)) <==>
              (v.VStr? ==> NulFree(v.chars))
  {
    hide Pow256, ToBytes, FromBytes, CString;
    var buf, cur := pre + Encode(v) + post, |pre|;
    var e := Encode(v);
    assert buf[cur..cur + |e|] == e;
    WordSizes();
    match v {
      case VBool(b) => assert buf[cur] == e[0];
      case VU32(u) => FixedRoundTrip(u, 4, buf, cur);
      case VU64(u) => FixedRoundTrip(u, 8, buf, cur);
      case VI32(i) => SignedRoundTrip(i, W32); FixedRoundTrip(Unsigned(i, W32), 4, buf, cur);
      case VI64(i) => SignedRoundTrip(i, W64); FixedRoundTrip(Unsigned(i, W64), 8, buf, cur);
      case VRaw(_) =>
      case VStr(s) => StringRoundTrip(s, pre, post);
    }
  }

  lemma StringRoundTrip(s: seq<Byte>, pre: seq<Byte>, post: seq<Byte>)
    requires |s| + 1 < W64
    ensures var e := ToBytes(|s| + 1, 8) + s + [0];
            Decode(TStr, pre + e + post, |pre|) == Some((VStr(CString(s + [0])), |pre| + |e|))
                && (CString(s + [0]) == s <==> NulFree(s))
  {
    hide Pow256, ToBytes, FromBytes, CString;
    var head := ToBytes(|s| + 1, 8);
    var e := head + s + [0];
    var buf, cur := pre + e + post, |pre|;
    WordSizes();
    assert buf[cur..cur + 8] == head;
    FixedRoundTrip(|s| + 1, 8, buf, cur);
    assert buf[cur + 8..cur + 8 + |s| + 1] == s + [0];
    assert buf[cur + 8 + |s|] == 0;
    CStringExact(s);
  }

  // ---- Messages ----------------------------------------------------------------------------------

  datatype Kind =
    | Iov | Ping | ObjectIdent | Header | ReadWrite | FlushInfos | CreateInfos | RegisterRange
    | UnregisterRange | ObjectCow | Response | Handshake | FirstClient | Empty | ErrorMessage

  /** The fields every message of the kind has, in order. */
  function Fixed(k: Kind): seq<Type> {
    match k
    case Iov => [TU64, TU64]
    case Ping => [TU64, TU64, TU64, TU64]
    case ObjectIdent => [TI64, TI64]
    case Header => [TU64, TU64, TU64, TU64]
    case ReadWrite => [TI64, TI64, TU64, TU64, TU64, TU64, TBool]
    case FlushInfos => [TI64, TI64, TU64, TU64]
    case CreateInfos => [TI64, TI64]
    case RegisterRange => [TI64, TI64, TU64, TU64, TBool]
    case UnregisterRange => [TI64, TI64, TU64, TU64, TI32, TBool]
    case ObjectCow => [TI64, TI64, TI64, TI64, TBool, TU64, TU64]
    case Response => [TU64, TI32, TBool]
    case Handshake => [TI32, TU64]
    case FirstClient => [TRaw(ADDR_LEN)]
    case Empty => []
    case ErrorMessage => [TStr]
  }

  function U64At(vals: seq<Value>, i: nat): nat { if i < |vals| && vals[i].VU64? then vals[i].u else 0 }

  predicate FlagAt(vals: seq<Value>, i: nat) { i < |vals| && vals[i].VBool? && vals[i].b }

  /** The optional data, whose presence and length depend on fields already known. */
  function Tail(k: Kind, vals: seq<Value>): Option<Type> {
    match k
    case Ping => if U64At(vals, 1) > 0 then Some(TRaw(U64At(vals, 1))) else None
    case ReadWrite => if FlagAt(vals, 6) then Some(TRaw(U64At(vals, 5))) else None
    case Response => if FlagAt(vals, 2) then Some(TRaw(U64At(vals, 0))) else None
    case _ => None
  }

  /** The type of the field that follows `vals`. */
  function Next(k: Kind, vals: seq<Value>): Option<Type> {
    if |vals| < |Fixed(k)| then Some(Fixed(k)[|vals|])
    else if |vals| == |Fixed(k)| then Tail(k, vals)
    else None
  }

  /** `vals` is a complete message of the kind. */
  ghost predicate IsMessage(k: Kind, vals: seq<Value>) {
    && |vals| <= |Fixed(k)| + 1
    && (forall i | 0 <= i < |vals| :: Next(k, vals[..i]) == Some(TypeOf(vals[i])) && InBounds(vals[i]))
    && Next(k, vals) == None
  }

  function Pack(vals: seq<Value>): seq<Byte>
    requires forall i | 0 <= i < |vals| :: InBounds(vals[i])
  {
    if vals == [] then [] else Pack(vals[..|vals| - 1]) + Encode(vals[|vals| - 1])
  }

  /** Reads the fields that `Next` asks for, one after the other. */
  function Unpack(k: Kind, buf: seq<Byte>, cur: nat, vals: seq<Value>): Option<(seq<Value>, nat)>
    requires cur <= |buf| && |vals| <= |Fixed(k)| + 1
    decreases |Fixed(k)| + 1 - |vals|
  {
    match Next(k, vals)
    case None => Some((vals, cur))
    case Some(t) =>
      match Decode(t, buf, cur)
      case None => None
      case Some((v, cur')) => Unpack(k, buf, cur', vals + [v])
  }

  lemma {:induction false} PackPrefix(vals: seq<Value>, i: nat)
    requires i <= |vals| && forall j | 0 <= j < |vals| :: InBounds(vals[j])
    ensures |Pack(vals[..i])| <= |Pack(vals)| && Pack(vals)[..|Pack(vals[..i])|] == Pack(vals[..i])
    decreases |vals|
  {
    if i == |vals| {
      assert vals[..i] == vals;
    } else {
      var shorter := vals[..|vals| - 1];
      PackPrefix(shorter, i);
      assert shorter[..i] == vals[..i];
    }
  }

  lemma {:induction false} UnpackFrom(k: Kind, vals: seq<Value>, suffix: seq<Byte>, i: nat)
    requires IsMessage(k, vals) && i <= |vals| && forall j | 0 <= j < |vals| :: vals[j].VStr? ==> NulFree(vals[j].chars)
    ensures |vals[..i]| <= |Fixed(k)| + 1 && |Pack(vals[..i])| <= |Pack(vals) + suffix|
    ensures Unpack(k, Pack(vals) + suffix, |Pack(vals[..i])|, vals[..i]) == Some((vals, |Pack(vals)|))
    decreases |vals| - i
  {
    hide Next, Decode, Encode, InBounds, Fixed;
    PackPrefix(vals, i);
    if i == |vals| {
      assert vals[..i] == vals;
    } else {
      PackPrefix(vals, i + 1);
      assert vals[..i + 1][..i] == vals[..i];
      var pre, e := Pack(vals[..i]), Encode(vals[i]);
      var post := Pack(vals)[|pre| + |e|..] + suffix;
      assert Pack(vals[..i + 1]) == pre + e;
      assert Pack(vals) + suffix == pre + e + post;
      FieldRoundTrip(vals[i], pre, post);
      assert vals[..i] + [vals[i]] == vals[..i + 1];
      UnpackFrom(k, vals, suffix, i + 1);
    }
  }

  /**
    Every message comes back from its packed bytes, whatever follows them, and the cursor stops at the packed length.
   */
  lemma RoundTrip(k: Kind, vals: seq<Value>, suffix: seq<Byte>)
    requires IsMessage(k, vals) && forall j | 0 <= j < |vals| :: vals[j].VStr? ==> NulFree(vals[j].chars)
    ensures Unpack(k, Pack(vals) + suffix, 0, []) == Some((vals, |Pack(vals)|))
  {
    UnpackFrom(k, vals, suffix, 0);
    assert vals[..0] == [];
  }

  /** An error text with a NUL inside does not come back. */
  lemma NulTextIsCut(s: seq<Byte>, suffix: seq<Byte>)
    requires |s| + 1 < W64
    ensures Unpack(ErrorMessage, Pack([VStr(s)]) + suffix, 0, []) == Some(([VStr(s)], |Pack([VStr(s)])|)) <==>
              NulFree(s)
  {
    hide Encode, Decode;
    var v := VStr(s);
    assert [v][..0] == [] && Pack([v]) == [] + Encode(v);
    assert Pack([v]) + suffix == [] + Encode(v) + suffix;
    FieldRoundTrip(v, [], suffix);
    assert [] + [v] == [v];
  }

  // ---- Sizes -------------------------------------------------------------------------------------

  /** Size computation; strings are not counted. */
  function ComputeSize(vals: seq<Value>): nat
    requires forall i | 0 <= i < |vals| :: InBounds(vals[i])
  {
    if vals == [] then 0
    else ComputeSize(vals[..|vals| - 1]) + (if vals[|vals| - 1].VStr? then 0 else |Encode(vals[|vals| - 1])|)
  }

  /** The computed size is the packed length exactly for messages without strings. */
  lemma {:induction false} SizeExact(vals: seq<Value>)
    requires forall i | 0 <= i < |vals| :: InBounds(vals[i])
    ensures ComputeSize(vals) <= |Pack(vals)|
    ensures ComputeSize(vals) == |Pack(vals)| <==> forall i | 0 <= i < |vals| :: !vals[i].VStr?
  {
    hide Encode, InBounds;
    if vals != [] {
      var n := |vals| - 1;
      SizeExact(vals[..n]);
      StringTakesRoom(vals[n]);
      assert forall i | 0 <= i < n :: vals[..n][i] == vals[i];
    }
  }

  lemma StringTakesRoom(v: Value)
    requires InBounds(v)
    ensures v.VStr? ==> |Encode(v)| > 0
  {
  }

  // ---- The cursor --------------------------------------------------------------------------------

  /** Packs field by field into a buffer. A field that does not fit stops the process. */
  method PackInto(buffer: array<Byte>, vals: seq<Value>) returns (ok: bool, cursor: nat)
    requires forall i | 0 <= i < |vals| :: InBounds(vals[i])
    modifies buffer
    ensures ok <==> |Pack(vals)| <= buffer.Length
    ensures ok ==> cursor == |Pack(vals)| && buffer[..cursor] == Pack(vals)
    ensures ok ==> buffer[cursor..] == old(buffer[cursor..])
  {
    hide Encode, InBounds;
    cursor := 0;
    assert vals[..0] == [];
    for i := 0 to |vals|
      invariant cursor <= buffer.Length && cursor == |Pack(vals[..i])| && buffer[..cursor] == Pack(vals[..i])
      invariant forall x | cursor <= x < buffer.Length :: buffer[x] == old(buffer[x])
    {
      assert vals[..i + 1][..i] == vals[..i];
      var e := Encode(vals[i]);
      if cursor + |e| > buffer.Length {
        PackPrefix(vals, i + 1);
        return false, cursor;
      }
      ghost var before := buffer[..cursor];
      forall x | 0 <= x < |e| { buffer[cursor + x] := e[x]; }
      assert buffer[..cursor + |e|] == before + e;
      cursor := cursor + |e|;
    }
    assert vals[..|vals|] == vals;
    ok := true;
  }

  /** Unpacks by reading fields until the description asks for no more. */
  method UnpackAll(k: Kind, buf: seq<Byte>) returns (r: Option<(seq<Value>, nat)>)
    ensures r == Unpack(k, buf, 0, [])
  {
    hide Decode;
    var vals: seq<Value>, cursor := [], 0;
    while Next(k, vals).Some?
      invariant cursor <= |buf| && |vals| <= |Fixed(k)| + 1
      invariant Unpack(k, buf, cursor, vals) == Unpack(k, buf, 0, [])
      decreases |Fixed(k)| + 1 - |vals|
    {
      var t := Next(k, vals).value;
      DecodeStays(t, buf, cursor);
      match Decode(t, buf, cursor) {
        case None => return None;
        case Some((v, next)) => vals, cursor := vals + [v], next;
      }
    }
    r := Some((vals, cursor));
  }

  lemma DecodeStays(t: Type, buf: seq<Byte>, cur: nat)
    requires cur <= |buf|
    ensures Decode(t, buf, cur).Some? ==> Decode(t, buf, cur).value.1 <= |buf|
  {
  }
}
