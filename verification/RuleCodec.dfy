/**
 A rule on its way from the agent to the driver: the value becomes bytes, the bytes a
 registry blob, and the blob a rule item.
 */
module RuleCodec {
  import opened Bytes
  import opened Bits
  import opened Operators
  import opened Addresses
  import opened Options
  import opened Matching

  const PFLAGS := 0x88
  const PHFLAGS := 0x98
  const ACCOUNT_NAME := 0xDC
  const ACCOUNT_DOMAIN := 0xDD

  /** A parsed rule value: lower-cased UTF-16 bytes, a number or enumeration key, or a subnet. */
  datatype Value =
    | Text(bytes: seq<byte>)
    | Number(n: int)
    | Cidr4(octets4: Ipv4Address, suffix: int)
    | Cidr6(octets6: Ipv6Address, prefix: int)

  /** `validated` is the verdict of the agent's field table on the value's range. */
  datatype Rule = Rule(op: byte, field: nat, value: Value, validated: bool) {
    predicate Typed() {
      field < 0x1_0000 && (value.Text? ==> |value.bytes| < 0x1_0000)
    }
  }

  // ----- the agent: values to bytes

  datatype Wire = WText | WByte | WWord | WDword | WKey32 | WKey16 | WIpv4 | WIpv6 | WNone

  /** The agent's switch over field types. */
  function WireOf(field: nat): Wire {
    if ProcessText(field) || RegistryText(field) || FileText(field) || field == FILE_NEW_NAME
       || field == LOADED_MODULE || field == TARGET_IMAGE_FILE_NAME || field == TARGET_COMMAND_LINE
       || TARGET_PARENT_IMAGE_FILE_NAME <= field <= TARGET_PCWD
       || field == ACCOUNT_NAME || field == ACCOUNT_DOMAIN || field == REG_DATA then WText
    else if NET_DIRECTION <= field <= NET_PROMISCUOUS then WByte
    else if field == REG_DATA_TYPE || field == FILE_NETWORK_PROTOCOL_VERSION_MAJOR
            || field == FILE_NETWORK_PROTOCOL_VERSION_MINOR
            || field == NET_LOCAL_PORT || field == NET_REMOTE_PORT then WWord
    else if field == PFLAGS || field == PHFLAGS || PHOPERATION <= field <= PHORIGINAL_DESIRED_ACCESS
            || field == CREATION_STATUS || NAMED_PIPE_TYPE <= field <= NAMED_PIPE_END || field == FILE_FLAGS
            || field == FILE_ACCESS_FLAGS || field == NET_INTERFACE_TYPE || field == FILE_NETWORK_PROTOCOL then WDword
    else if field == FILE_OPERATION then WKey32
    else if field == REG_OP || field == WFP_LAYER then WKey16
    else if field == NET_LOCAL_IPV4_ADDR || field == NET_REMOTE_IPV4_ADDR then WIpv4
    else if field == NET_LOCAL_IPV6_ADDR || field == NET_REMOTE_IPV6_ADDR then WIpv6
    else WNone
  }

  /** No 32-bit hexadecimal value is parsed as zero (`HexFields.ParsedIsPositive`). */
  function StringToMessage(field: nat, v: Value): Option<seq<byte>> {
    match WireOf(field)
    case WText => if v.Text? then Some(v.bytes) else None
    case WByte => if v.Number? && v.n <= 2 then Some([v.n % 256, 0]) else None
    case WWord => if v.Number? && 0 <= v.n < 0x1_0000 then Some(Little(v.n, 2)) else None
    case WDword => if v.Number? && 0 < v.n < 0x1_0000_0000 then Some(Little(v.n, 4)) else None
    case WKey32 => if v.Number? && 0 < v.n < 0x1_0000_0000 then Some(Little(v.n, 4)) else None
    case WKey16 => if v.Number? && 0 < v.n < 0x1_0000 then Some(Little(v.n, 2)) else None
    case WIpv4 =>
      if v.Cidr4? && ParseIpv4(v.octets4, v.suffix).Some?
      then Some(Little(ParseIpv4(v.octets4, v.suffix).value, 8)) else None
    case WIpv6 => if v.Cidr6? then ParseIpv6(v.octets6, v.prefix) else None
    case WNone => None
  }

  /** The field table has the agent parse an IPv4 value again and take a zero for a failure. */
  predicate VerifyIpv4(v: Value) {
    v.Cidr4? ==> ParseIpv4(v.octets4, v.suffix).Some? && ParseIpv4(v.octets4, v.suffix).value > 0
  }

  /** The conditions under which the agent writes the rule instead of stopping with an error. */
  predicate Compiles(r: Rule) {
    && r.validated && VerifyIpv4(r.value)
    && r.op != 0 && r.field != 0
    && StringToMessage(r.field, r.value).Some?
    && StringToMessage(r.field, r.value).value != []
  }

  lemma Ipv4SuffixInRange(v: Value)
    requires v.Cidr4? && VerifyIpv4(v)
    ensures 1 <= v.suffix <= 32
  {
    if v.suffix <= 0 {
      AndBound(Bytes.Value(v.octets4), 0);
    }
  }

  /** The agent writes a string as it is. */
  predicate WritesText(r: Rule) {
    && (Compiles(r) <==> r.value.Text? && r.value.bytes != [])
    && (Compiles(r) ==> StringToMessage(r.field, r.value) == Some(r.value.bytes))
  }

  /** The agent writes numbers from `least` on in so many bytes, the lowest first. */
  predicate WritesNumber(r: Rule, least: int, width: nat) {
    && (Compiles(r) <==> r.value.Number? && least <= r.value.n < Pow256(width))
    && (Compiles(r) ==>
         var bytes := StringToMessage(r.field, r.value).value;
         |bytes| == width && Bytes.Value(bytes) == r.value.n)
  }

  /**
   Which rules the agent accepts, given an operator and a validated value, and what it writes
   for them, field by field; the numbers are the fields' own.
   */
  lemma AgentWrites(r: Rule)
    requires r.validated && r.op != 0
    ensures 0xB5 <= r.field <= 0xBB || 0xD7 <= r.field <= 0xDA || r.field in
      {0x81, 0x82, 0x85, 0x86, 0x87, 0x89, 0x93, 0x95, 0x96, 0x9C, 0x9D, 0x9E, 0x9F, 0xB1, 0xB2, 0xC0, 0xDC, 0xDD}
      ==> WritesText(r)
    ensures r.field in {0xCB, 0xCC, 0xCD, 0xCE} ==>
      && (Compiles(r) <==> r.value.Number? && r.value.n <= 2)
      && (Compiles(r) ==> StringToMessage(r.field, r.value) == Some([r.value.n % 256, 0]))
    ensures r.field in {0xD5, 0xD6} ==>
      && (Compiles(r) <==> r.value.Cidr6? && 1 <= r.value.prefix <= 128)
      && (Compiles(r) ==> StringToMessage(r.field, r.value) == Some(r.value.octets6 + [r.value.prefix]))
    ensures Compiles(r) ==>
      || 0x93 <= r.field <= 0x9F || r.field >= 0xB0
      || r.field in {0x81, 0x82, 0x85, 0x86, 0x87, 0x88, 0x89, 0x91}
    ensures r.field in {0x94, 0x97, 0xB4, 0xBD, 0xBE, 0xC8, 0xD4, 0xDB} || r.field > 0xDD ==> !Compiles(r)
  {
  }

  lemma LittleWrites(r: Rule, least: int, width: nat)
    requires r.validated && r.op != 0 && r.field != 0 && 0 <= least && width > 0
    requires StringToMessage(r.field, r.value)
      == if r.value.Number? && least <= r.value.n < Pow256(width) then Some(Little(r.value.n, width)) else None
    requires r.value.Cidr4? ==> StringToMessage(r.field, r.value).None?
    ensures WritesNumber(r, least, width)
  {
    if r.value.Number? && least <= r.value.n < Pow256(width) {
      ValueOfLittle(r.value.n, width);
    }
  }

  /** Numbers of two bytes: from zero, and enumeration keys from one. */
  lemma AgentWritesShort(r: Rule)
    requires r.validated && r.op != 0
    ensures r.field in {0xB3, 0xC2, 0xC3, 0xCF, 0xD0} ==> WritesNumber(r, 0, 2)
    ensures r.field in {0xB0, 0xCA} ==> WritesNumber(r, 1, 2)
  {
    Powers();
    if r.field in {0xB3, 0xC2, 0xC3, 0xCF, 0xD0} {
      LittleWrites(r, 0, 2);
    } else if r.field in {0xB0, 0xCA} {
      LittleWrites(r, 1, 2);
    }
  }

  /** 32-bit hexadecimal values and enumeration keys: four bytes, from one. */
  lemma AgentWritesLong(r: Rule)
    requires r.validated && r.op != 0
    requires r.field in
      {0x88, 0x91, 0x98, 0x99, 0x9A, 0x9B, 0xBC, 0xBF, 0xC1, 0xC4, 0xC5, 0xC6, 0xC7, 0xC9, 0xD3}
    ensures WritesNumber(r, 1, 4)
  {
    Powers();
    LittleWrites(r, 1, 4);
  }

  /** IPv4 subnets: every suffix from 1 to 32, as mask and masked address in eight bytes. */
  lemma AgentWritesIpv4(r: Rule)
    requires r.validated && r.op != 0 && r.field in {0xD1, 0xD2}
    ensures Compiles(r) <==> r.value.Cidr4? && 1 <= r.value.suffix <= 32
    ensures Compiles(r) ==>
      var bytes := StringToMessage(r.field, r.value).value;
      && |bytes| == 8 && Bytes.Value(bytes[0..4]) == Pow2(r.value.suffix) - 1
      && Bytes.Value(bytes[4..8]) == Bytes.Value(r.value.octets4) % Pow2(r.value.suffix)
  {
    if r.value.Cidr4? && 1 <= r.value.suffix <= 32 {
      MaskIsLow(r.value.suffix);
      Ipv4Survives(r.value.octets4, r.value.suffix);
      assert Pow2(r.value.suffix) >= 2;
    }
    if Compiles(r) {
      Ipv4SuffixInRange(r.value);
    }
  }

  // ----- the blob

  const HEADER := 17

  datatype Header = Header(size: nat, list: nat, field: nat, op: nat, id: nat, actions: nat) {
    predicate Typed() {
      && size < 0x1_0000_0000 && list < 0x1_0000 && field < 0x1_0000 && op < 0x100
      && id < 0x1_0000_0000 && actions < 0x1_0000_0000
    }
  }

  /** Header fields, payload, and one byte the agent allocates too many. */
  function Blob(h: Header, payload: seq<byte>): seq<byte> {
    HeaderBytes(h) + payload + [0]
  }

  function HeaderBytes(h: Header): (s: seq<byte>)
    ensures |s| == HEADER
  {
    Little(h.size, 4) + Little(h.list, 2) + Little(h.field, 2) + Little(h.op, 1) + Little(h.id, 4)
    + Little(h.actions, 4)
  }

  method WriteHeader(data: array<byte>, h: Header)
    requires data.Length >= HEADER
    modifies data
    ensures data[..HEADER] == HeaderBytes(h)
    ensures forall i :: HEADER <= i < data.Length ==> data[i] == old(data[i])
  {
    Put(data, 0, Little(h.size, 4));
    Put(data, 4, Little(h.list, 2));
    Put(data, 6, Little(h.field, 2));
    Put(data, 8, Little(h.op, 1));
    Put(data, 9, Little(h.id, 4));
    Put(data, 13, Little(h.actions, 4));
  }

  /** The agent writes the fields at fixed offsets of a zeroed slice. */
  method WriteBlob(h: Header, payload: seq<byte>) returns (data: array<byte>)
    requires h.Typed() && h.size == |payload|
    ensures fresh(data)
    ensures data[..] == Blob(h, payload)
  {
    data := new byte[18 + |payload|](_ => 0);
    WriteHeader(data, h);
    Put(data, HEADER, payload);
    assert data[..] == data[..HEADER + |payload|] + [0];
  }

  /** Binary writes in ascending order: what lies behind the written part is untouched. */
  method Put(data: array<byte>, at: nat, src: seq<byte>)
    requires at + |src| <= data.Length
    modifies data
    ensures data[..at + |src|] == old(data[..at]) + src
    ensures forall i :: at + |src| <= i < data.Length ==> data[i] == old(data[i])
  {
    forall i | 0 <= i < |src| {
      data[at + i] := src[i];
    }
  }

  // ----- the driver: bytes to items

  /** `n` bytes from the start of a buffer that is followed by zeros. */
  function Read(data: seq<byte>, n: nat): (s: seq<byte>)
    ensures |s| == n
  {
    if n <= |data| then data[..n] else data + seq(n - |data|, _ => 0)
  }

  function ReadHeader(blob: seq<byte>): Header {
    Header(Bytes.Value(Read(blob, 4)), Bytes.Value(Read(blob, 6)[4..]), Bytes.Value(Read(blob, 8)[6..]),
           Bytes.Value(Read(blob, 9)[8..]), Bytes.Value(Read(blob, 13)[9..]), Bytes.Value(Read(blob, HEADER)[13..]))
  }

  lemma {:induction false} HeaderSurvives(h: Header, payload: seq<byte>)
    requires h.Typed()
    ensures ReadHeader(Blob(h, payload)) == h
    ensures Blob(h, payload)[HEADER..] == payload + [0]
    ensures |Blob(h, payload)| == HEADER + |payload| + 1
  {
    var blob := Blob(h, payload);
    var a, b, c := Little(h.size, 4), Little(h.list, 2), Little(h.field, 2);
    var d, e, f := Little(h.op, 1), Little(h.id, 4), Little(h.actions, 4);
    assert blob[..4] == a;
    assert blob[..6] == a + b && (a + b)[4..] == b;
    assert blob[..8] == a + b + c && (a + b + c)[6..] == c;
    assert blob[..9] == a + b + c + d && (a + b + c + d)[8..] == d;
    assert blob[..13] == a + b + c + d + e && (a + b + c + d + e)[9..] == e;
    assert blob[..HEADER] == a + b + c + d + e + f && (a + b + c + d + e + f)[13..] == f;
    Powers();
    ValueOfLittle(h.size, 4);
    ValueOfLittle(h.list, 2);
    ValueOfLittle(h.field, 2);
    ValueOfLittle(h.op, 1);
    ValueOfLittle(h.id, 4);
    ValueOfLittle(h.actions, 4);
  }

  /** Where the header's fields lie in a value. */
  lemma HeaderLayout(h: Header, payload: seq<byte>)
    ensures var blob := Blob(h, payload);
      && |blob| == 18 + |payload| && blob[17..17 + |payload|] == payload
      && blob[0..4] == Little(h.size, 4) && blob[4..6] == Little(h.list, 2) && blob[6..8] == Little(h.field, 2)
      && blob[8..9] == Little(h.op, 1) && blob[9..13] == Little(h.id, 4) && blob[13..17] == Little(h.actions, 4)
  {
  }

  datatype Slot = SBool | SUint8 | SUshort | SUlong | SLonglong | SIpv4 | SIpv6 | SUnicode | SEnum | SNone

  /** getFieldDataType; metadata and unknown fields have no slot. */
  function SlotOf(field: nat): Slot {
    if field == FILE_DELETION then SBool
    else if NET_DIRECTION <= field <= NET_PROMISCUOUS then SUint8
    else if field == WFP_LAYER || field == FILE_NETWORK_PROTOCOL_VERSION_MAJOR
            || field == FILE_NETWORK_PROTOCOL_VERSION_MINOR
            || field == NET_LOCAL_PORT || field == NET_REMOTE_PORT then SUshort
    else if field == REG_OP || field == REG_DATA_TYPE || field == FILE_OPERATION || field == FILE_ACCESS_FLAGS
            || field == FILE_FLAGS || field == MODULE_PROPERTIES || field == CREATION_STATUS
            || PHOPERATION <= field <= PHORIGINAL_DESIRED_ACCESS || field == FILE_NETWORK_PROTOCOL
            || NAMED_PIPE_TYPE <= field <= NAMED_PIPE_END || field == NET_INTERFACE_TYPE then SUlong
    else if field == FILE_CREATION_TIME || field == FILE_CHANGE_TIME then SLonglong
    else if field == NET_LOCAL_IPV4_ADDR || field == NET_REMOTE_IPV4_ADDR then SIpv4
    else if field == NET_LOCAL_IPV6_ADDR || field == NET_REMOTE_IPV6_ADDR then SIpv6
    else if ProcessText(field) || RegistryText(field) || FileText(field) || field == FILE_NEW_NAME
            || field == LOADED_MODULE || field == TARGET_IMAGE_FILE_NAME || field == TARGET_COMMAND_LINE
            || TARGET_PARENT_IMAGE_FILE_NAME <= field <= TARGET_PCWD then SUnicode
    else if field == SID_DATA then SEnum
    else SNone
  }

  /** The slots by field number; every other field has none. */
  lemma SlotTable(field: nat)
    ensures SlotOf(field).SBool? <==> field == 0xC8
    ensures SlotOf(field).SUint8? <==> field in {0xCB, 0xCC, 0xCD, 0xCE}
    ensures SlotOf(field).SUshort? <==> field in {0xC2, 0xC3, 0xCA, 0xCF, 0xD0}
    ensures SlotOf(field).SUlong? <==>
      field in {0x91, 0x94, 0x99, 0x9A, 0x9B, 0xB0, 0xB3, 0xBC, 0xBF, 0xC1, 0xC4, 0xC5, 0xC6, 0xC7, 0xC9, 0xD3}
    ensures SlotOf(field).SLonglong? <==> field in {0xBD, 0xBE}
    ensures SlotOf(field).SIpv4? <==> field in {0xD1, 0xD2}
    ensures SlotOf(field).SIpv6? <==> field in {0xD5, 0xD6}
    ensures SlotOf(field).SEnum? <==> field == 0xDB
    ensures SlotOf(field).SUnicode? <==>
      || 0xB5 <= field <= 0xBB || 0xD7 <= field <= 0xDA
      || field in {0x81, 0x82, 0x85, 0x86, 0x87, 0x89, 0x93, 0x95, 0x96, 0x9C, 0x9D, 0x9E, 0xB1, 0xB2, 0xC0}
  {
  }

  function Blank(op: nat, field: nat): Item {
    Item(op, field, false, 0, 0, 0, 0, 0, 0, 0, 0, None, [])
  }

  /** makeNewItem: the payload goes into the slot of the field's data type. */
  function MakeItem(op: nat, field: nat, size: nat, data: seq<byte>): Option<Item> {
    var blank := Blank(op, field);
    match SlotOf(field)
    case SUnicode => Some(blank.(text := Read(data, size)[..size % 0x1_0000]))
    case SIpv4 =>
      if size < 8 then None else
        Some(blank.(mask := MaskOf(Read(data, 8)), subnet := SubnetOf(Read(data, 8))))
    case SIpv6 =>
      if size < 16 then None else
        var bytes := Read(data, 17);
        Some(blank.(prefix := bytes[16], net6 := Some(bytes[..16])))
    case SBool => Some(blank.(boolean := Read(data, 1)[0] != 0))
    case SUint8 => Some(blank.(uint8 := Read(data, 1)[0]))
    case SUshort => Some(blank.(ushort := Bytes.Value(Read(data, 2))))
    case SUlong => Some(blank.(ulong := Bytes.Value(Read(data, 4))))
    case SLonglong =>
      var v := Bytes.Value(Read(data, 8));
      Some(blank.(longlong := if v < 0x8000_0000_0000_0000 then v else v - 0x1_0000_0000_0000_0000))
    case SEnum => Some(blank)
    case SNone => None
  }

  datatype Loaded = Loaded(id: nat, actions: nat, item: Item)

  /** What becomes of one value: an item, nothing, the end of the enumeration, or an access out of bounds. */
  datatype Decoded = Loads(loaded: Loaded) | Drops | Halts | Crashes

  /** The payload lies behind the header; a value without one is followed by zeros. */
  function Behind(blob: seq<byte>): seq<byte> {
    if |blob| >= HEADER then blob[HEADER..] else []
  }

  /** The size to copy: the header's, or what is left of the value, which wraps on a short one. */
  function CopySize(blob: seq<byte>): nat {
    var size := ReadHeader(blob).size;
    if |blob| > size then size else (|blob| - HEADER) % 0x1_0000_0000
  }

  /** Twice the 12 bytes in front of the data and the data itself are allocated; so much lies from the data on. */
  function Allocated(blob: seq<byte>): nat {
    2 * (12 + |blob|) - 12
  }

  /** How many payload bytes the item's slot is filled from. */
  function PayloadRead(field: nat, size: nat): nat {
    match SlotOf(field)
    case SUnicode => size
    case SIpv4 => if size < 8 then 0 else 8
    case SIpv6 => if size < 16 then 0 else 17
    case SBool => 1
    case SUint8 => 1
    case SUshort => 2
    case SUlong => 4
    case SLonglong => 8
    case SEnum => 0
    case SNone => 0
  }

  /**
   The decoding half of LoadConfig for one binary value: read the header, leave the loop over the
   values on a size of zero, and fill the item from the payload.
   */
  function Decode(blob: seq<byte>): Decoded {
    var h := ReadHeader(blob);
    if HEADER > Allocated(blob) then Crashes
    else if CopySize(blob) == 0 then Halts
    else if HEADER + PayloadRead(h.field, CopySize(blob)) > Allocated(blob) then Crashes
    else
      var made := MakeItem(h.op, h.field, CopySize(blob), Behind(blob));
      if made.None? then Drops else Loads(Loaded(h.id, h.actions, made.value))
  }

  /** A value too short to name a field. */
  lemma NoFieldBelow7(blob: seq<byte>)
    requires |blob| < 7
    ensures ReadHeader(blob).field == 0 && SlotOf(0) == SNone
  {
    var two := Read(blob, 8)[6..];
    assert two == [0, 0];
    assert Bytes.Value(two) == two[0] + 256 * Bytes.Value(two[1..]);
    assert Bytes.Value(two[1..]) == two[1] + 256 * Bytes.Value(two[2..]);
  }

  /**
   The driver reads past the buffer it allocated for a value if and only if the value has fewer
   than 3 bytes, or it is shorter than a header and claims to be at least as large as it is,
   naming a string field or, with at most 10 bytes, an IPv6 field.
   */
  lemma CrashesIff(blob: seq<byte>)
    requires |blob| < 0x1_0000_0000
    ensures Decode(blob).Crashes? <==>
      var h := ReadHeader(blob);
      || |blob| < 3
      || (|blob| < HEADER && |blob| <= h.size
         && (SlotOf(h.field).SUnicode? || (SlotOf(h.field).SIpv6? && |blob| <= 10)))
  {
    if |blob| < 7 {
      NoFieldBelow7(blob);
    }
    if |blob| < HEADER && |blob| <= ReadHeader(blob).size {
      assert CopySize(blob) == |blob| - HEADER + 0x1_0000_0000;
    }
  }

  /**
   A value that is read within its buffer ends the loading if and only if it claims a size of
   zero, or is a bare header that claims at least its own size.
   */
  lemma HaltsIff(blob: seq<byte>)
    requires |blob| < 0x1_0000_0000
    ensures Decode(blob).Halts? <==>
      var h := ReadHeader(blob);
      |blob| >= 3 && (h.size == 0 || (|blob| == HEADER && h.size >= HEADER))
  {
    if |blob| < HEADER && |blob| <= ReadHeader(blob).size {
      assert CopySize(blob) == |blob| - HEADER + 0x1_0000_0000;
    }
  }

  /** How many payload bytes a value claims and has; a value short of a header has any number. */
  function Copied(blob: seq<byte>): nat {
    var size := ReadHeader(blob).size;
    if |blob| > size then size else if |blob| >= HEADER then |blob| - HEADER else 0xFFFF_FFFF
  }

  /**
   A value that neither crashes nor ends the loading is dropped if and only if its field has no
   slot, or it brings fewer than 8 bytes for an IPv4 field or 16 for an IPv6 field.
   */
  lemma DropsIff(blob: seq<byte>)
    requires |blob| < 0x1_0000_0000
    ensures Decode(blob).Drops? <==>
      var slot, n := SlotOf(ReadHeader(blob).field), Copied(blob);
      |blob| >= 3 && n > 0 && (slot.SNone? || (slot.SIpv4? && n < 8) || (slot.SIpv6? && n < 16))
  {
    if |blob| < HEADER && |blob| <= ReadHeader(blob).size {
      assert CopySize(blob) == |blob| - HEADER + 0x1_0000_0000;
    }
  }

  lemma ShortHeader()
    ensures ReadHeader([7, 0, 0, 0, 0, 0, 0xD5]).size == 7 && ReadHeader([7, 0, 0, 0, 0, 0, 0xD5]).field == 0xD5
  {
    var blob: seq<byte> := [7, 0, 0, 0, 0, 0, 0xD5];
    var size, field := Read(blob, 4), Read(blob, 8)[6..];
    assert size == [7, 0, 0, 0] && field == [0xD5, 0];
    assert Bytes.Value(size[1..]) == 0 by {
      assert size[1..] == [] + [0, 0, 0];
      ValueZeroExtended([], [0, 0, 0]);
    }
    assert Bytes.Value(field[1..]) == 0 by {
      assert field[1..] == [] + [0];
      ValueZeroExtended([], [0]);
    }
  }

  /** The shortest IPv6 value that is read out of bounds: a size, a list and a field, and no more. */
  lemma ShortIpv6Crashes()
    ensures Decode([7, 0, 0, 0, 0, 0, 0xD5]).Crashes?
    ensures Decode([]).Crashes?
  {
    ShortHeader();
    CrashesIff([7, 0, 0, 0, 0, 0, 0xD5]);
  }

  // ----- the round trip

  /** Matchers read the slot the driver decodes into, for every field but two. */
  lemma SlotAgreement(kind: Kind, field: nat)
    ensures match CheckOf(kind, field)
      case ByText => SlotOf(field) == SUnicode
      case ByUlong => SlotOf(field) == SUlong
      case ByUshort => SlotOf(field) == SUshort
      case ByUint8 => SlotOf(field) == SUint8
      case ByInt8 => field == NET_DIRECTION && SlotOf(field) == SUint8
      case ByLonglong => if field == NET_INTERFACE then SlotOf(field) == SNone else SlotOf(field) == SLonglong
      case ByIpv4 => SlotOf(field) == SIpv4
      case ByIpv6 => SlotOf(field) == SIpv6
      case ByDeletion => SlotOf(field) == SBool
      case Unchecked => true
  {
  }

  predicate KnownField(field: nat) {
    SlotOf(field) != SNone
  }

  /** The agent writes five fields, strings and flags, that the driver has no slot for. */
  lemma UnknownFields(field: nat)
    requires WireOf(field) != WNone
    ensures !KnownField(field) <==>
      field in {REG_DATA, ACCOUNT_NAME, ACCOUNT_DOMAIN, PFLAGS, PHFLAGS}
    ensures !KnownField(field) ==> forall kind :: CheckOf(kind, field) == Unchecked
  {
  }

  /** What a rule asks of an event, in terms of its own value. */
  ghost predicate RuleHolds(kind: Kind, r: Rule, ev: Event) {
    match CheckOf(kind, r.field)
    case ByText =>
      r.value.Text? && Source(r.field) in ev.texts && StringHolds(r.op, ev.texts[Source(r.field)], r.value.bytes)
    case ByUlong => r.value.Number? && NumberHolds(r.op, Num(ev, r.field), r.value.n, 4)
    case ByUshort => r.value.Number? && NumberHolds(r.op, Num(ev, r.field), r.value.n, 2)
    case ByUint8 => r.value.Number? && NumberHolds(r.op, Num(ev, r.field), r.value.n % 256, 1)
    case ByInt8 => NumberHolds(r.op, Num(ev, r.field), 0, 1)
    case ByIpv4 =>
      && r.value.Cidr4? && 1 <= r.value.suffix <= 32
      && Bytes.Value(Octets4(ev, r.field)) != 0
      && LowAgree(r.value.octets4, Compared(Octets4(ev, r.field), ev.route), r.value.suffix)
    case ByIpv6 =>
      && r.value.Cidr6? && 1 <= r.value.prefix <= 128
      && r.field in ev.v6 && LowAgree(r.value.octets6, ev.v6[r.field], r.value.prefix)
    case _ => false
  }

  /** A text rule holds of this member of the event. */
  ghost predicate AsksText(r: Rule, ev: Event, member: nat) {
    r.value.Text? && TextAt(ev, member, r.op, r.value.bytes)
  }

  predicate AsksNumber(r: Rule, ev: Event, width: nat) {
    r.value.Number? && NumberAt(ev, r.field, r.op, r.value.n, width)
  }

  /**
   What a rule on a process or registry field asks, and in which lists it can hold. The numbers
   are the fields' own: 0x81 image, 0x82 command line, 0x85 and 0x86 the parent's, 0x87 working
   directory, 0x89 window title, 0x95 target image, taken for the image of the acting process.
   */
  lemma RuleAsks(kind: Kind, r: Rule, ev: Event)
    requires r.field <= 0xB4 || 0xD6 < r.field
    ensures r.field in {0x81, 0x82, 0x85, 0x86, 0x87, 0x89} ==>
      (RuleHolds(kind, r, ev) <==> AsksText(r, ev, r.field))
    ensures r.field == 0x95 ==> (RuleHolds(kind, r, ev) <==> !kind.Process? && AsksText(r, ev, 0x81))
    ensures r.field in {0x9C, 0x9D, 0x9E, 0xB1, 0xB2} ==>
      (RuleHolds(kind, r, ev) <==> kind.Registry? && AsksText(r, ev, r.field))
    ensures r.field in {0xB0, 0xB3} ==> (RuleHolds(kind, r, ev) <==> kind.Registry? && AsksNumber(r, ev, 4))
    ensures r.field !in {0x81, 0x82, 0x85, 0x86, 0x87, 0x89, 0x95, 0x9C, 0x9D, 0x9E, 0xB0, 0xB1, 0xB2, 0xB3}
      ==> !RuleHolds(kind, r, ev)
  {
  }

  /** What a rule on a file field asks: 0xB5 to 0xBB and 0xC0 names, 0xBC flags, 0xBF to 0xC9 file changes. */
  lemma FileRuleAsks(kind: Kind, r: Rule, ev: Event)
    requires 0xB5 <= r.field <= 0xC9
    ensures r.field <= 0xBB ==>
      (RuleHolds(kind, r, ev) <==> kind in {FileCreate, FileSet} && AsksText(r, ev, r.field))
    ensures r.field == 0xC0 ==> (RuleHolds(kind, r, ev) <==> kind.FileSet? && AsksText(r, ev, 0xC0))
    ensures r.field == 0xBC ==> (RuleHolds(kind, r, ev) <==> kind.FileCreate? && AsksNumber(r, ev, 4))
    ensures r.field in {0xBF, 0xC1, 0xC4, 0xC5, 0xC6, 0xC7, 0xC9} ==>
      (RuleHolds(kind, r, ev) <==> kind.FileSet? && AsksNumber(r, ev, 4))
    ensures r.field in {0xC2, 0xC3} ==> (RuleHolds(kind, r, ev) <==> kind.FileSet? && AsksNumber(r, ev, 2))
    ensures RuleHolds(kind, r, ev) ==> r.field !in {0xBD, 0xBE, 0xC8}
  {
  }

  /**
   What a rule on a network field asks: 0xCA layer, 0xCB direction, 0xCC to 0xCE protocol and
   flags, 0xCF and 0xD0 ports, 0xD3 interface type; 0xD4, the interface, and other lists never hit.
   */
  lemma NetworkRuleAsks(kind: Kind, r: Rule, ev: Event)
    requires 0xCA <= r.field <= 0xD6
    ensures RuleHolds(kind, r, ev) ==> kind.Network? && r.field != 0xD4
    ensures r.field in {0xCA, 0xCF, 0xD0} && kind.Network? ==> (RuleHolds(kind, r, ev) <==> AsksNumber(r, ev, 2))
    ensures r.field == 0xCB && kind.Network? ==>
      (RuleHolds(kind, r, ev) <==> NumberAt(ev, 0xCB, r.op, 0, 1))
    ensures r.field in {0xCC, 0xCD, 0xCE} && kind.Network? ==>
      (RuleHolds(kind, r, ev) <==> r.value.Number? && NumberAt(ev, r.field, r.op, r.value.n % 256, 1))
    ensures r.field == 0xD3 && kind.Network? ==> (RuleHolds(kind, r, ev) <==> AsksNumber(r, ev, 4))
  {
  }

  /** An IPv4 rule compares a non-zero address as it arrives, or in reverse; an IPv6 rule as it is. */
  lemma AddressRuleAsks(r: Rule, ev: Event)
    requires r.field in {0xD1, 0xD2, 0xD5, 0xD6}
    ensures r.field in {0xD1, 0xD2} && r.value.Cidr4? ==>
      (RuleHolds(Network, r, ev) <==>
         && r.field in ev.v4 && ev.v4[r.field] != [0, 0, 0, 0] && 1 <= r.value.suffix <= 32
         && var a := ev.v4[r.field];
            LowAgree(r.value.octets4, if ev.route.SwappedTwice? then [a[3], a[2], a[1], a[0]] else a, r.value.suffix))
    ensures r.field in {0xD5, 0xD6} && r.value.Cidr6? ==>
      (RuleHolds(Network, r, ev) <==>
         && r.field in ev.v6 && 1 <= r.value.prefix <= 128
         && LowAgree(r.value.octets6, ev.v6[r.field], r.value.prefix))
  {
    if r.field in {0xD1, 0xD2} {
      ZeroIff(Octets4(ev, r.field));
    }
  }

  lemma ZeroIff(address: Ipv4Address)
    ensures Bytes.Value(address) == 0 <==> address == [0, 0, 0, 0]
  {
    ZeroOctets(address);
    if address == [0, 0, 0, 0] {
      ZeroValue(address);
    }
  }

  function HeaderOf(r: Rule, list: nat, id: nat, actions: nat): Header
    requires Compiles(r)
  {
    Header(|StringToMessage(r.field, r.value).value|, list, r.field, r.op, id, actions)
  }

  function BlobOf(r: Rule, list: nat, id: nat, actions: nat): seq<byte>
    requires Compiles(r)
  {
    Blob(HeaderOf(r, list, id, actions), StringToMessage(r.field, r.value).value)
  }

  /** The compiled payload is short enough for the header's size field. */
  lemma {:induction false} PayloadFits(r: Rule)
    requires r.Typed() && Compiles(r)
    ensures |StringToMessage(r.field, r.value).value| < 0x1_0000
  {
  }

  /** The item the driver makes of a rule's payload and the spare byte behind it. */
  function Made(r: Rule): Option<Item>
    requires Compiles(r)
  {
    var p := StringToMessage(r.field, r.value).value;
    MakeItem(r.op, r.field, |p|, p + [0])
  }

  lemma {:induction false} DecodeIsMade(r: Rule, list: nat, id: nat, actions: nat)
    requires r.Typed() && Compiles(r) && list < 0x1_0000 && id < 0x1_0000_0000 && actions < 0x1_0000_0000
    ensures Decode(BlobOf(r, list, id, actions)) ==
      if Made(r).None? then Drops else Loads(Loaded(id, actions, Made(r).value))
  {
    PayloadFits(r);
    HeaderSurvives(HeaderOf(r, list, id, actions), StringToMessage(r.field, r.value).value);
    CrashesIff(BlobOf(r, list, id, actions));
  }

  /** A number written in fewer bytes than the driver reads comes back unchanged. */
  lemma {:induction false} NarrowNumber(n: nat, written: nat, read: nat)
    requires n < Pow256(written)
    ensures written <= read ==> Bytes.Value(Read(Little(n, written) + [0], read)) == n
  {
    var little := Little(n, written);
    ValueOfLittle(n, written);
    if written == read {
      assert Read(little + [0], read) == little;
    } else if written < read {
      var zeros: seq<byte> := seq(read - written, _ => 0);
      assert Read(little + [0], read) == little + zeros;
      ValueZeroExtended(little, zeros);
    }
  }

  ghost predicate SameMeaning(r: Rule, item: Item) {
    item.field == r.field
    && forall kind, ev, before :: Satisfied(kind, item, ev, before) <==> RuleHolds(kind, r, ev)
  }

  ghost predicate Survives(r: Rule)
    requires Compiles(r)
  {
    Made(r).Some? && SameMeaning(r, Made(r).value)
  }

  /** A numeric payload arrives in the slot of the field's type, and in no other. */
  ghost predicate InSlot(item: Item, field: nat, n: int) {
    && item.field == field && item.int8 == 0
    && (SlotOf(field) == SUint8 ==> item.uint8 == n % 256)
    && (SlotOf(field) == SUshort ==> item.ushort == n)
    && (SlotOf(field) == SUlong ==> item.ulong == n)
  }

  lemma {:induction false} NumberArrives(r: Rule)
    requires r.Typed() && Compiles(r) && r.value.Number? && KnownField(r.field)
    ensures SlotOf(r.field) in {SUint8, SUshort, SUlong}
    ensures Made(r).Some? && Made(r).value.op == r.op && InSlot(Made(r).value, r.field, r.value.n)
  {
    Powers();
    var n := r.value.n;
    match WireOf(r.field) {
      case WWord => NarrowNumber(n, 2, 2); NarrowNumber(n, 2, 4);
      case WDword => NarrowNumber(n, 4, 4);
      case WKey32 => NarrowNumber(n, 4, 4);
      case WKey16 => NarrowNumber(n, 2, 2); NarrowNumber(n, 2, 4);
      case _ =>
    }
  }

  lemma {:induction false} NumberSurvives(r: Rule)
    requires r.Typed() && Compiles(r) && r.value.Number? && KnownField(r.field)
    ensures Survives(r)
  {
    NumberArrives(r);
    NumericItemMeans(r, Made(r).value);
  }

  lemma {:induction false} NumericItemMeans(r: Rule, item: Item)
    requires r.value.Number? && SlotOf(r.field) in {SUint8, SUshort, SUlong}
    requires item.op == r.op && InSlot(item, r.field, r.value.n)
    ensures SameMeaning(r, item)
  {
    forall kind, ev, before
      ensures Satisfied(kind, item, ev, before) <==> RuleHolds(kind, r, ev)
    {
      SlotAgreement(kind, r.field);
    }
  }

  lemma {:induction false} TextSurvives(r: Rule)
    requires r.Typed() && Compiles(r) && r.value.Text? && KnownField(r.field)
    ensures Survives(r)
  {
    var text := r.value.bytes;
    assert Read(text + [0], |text|) == text && text[..|text|] == text;
    assert Made(r).value == Blank(r.op, r.field).(text := text);
    forall kind
      ensures CheckOf(kind, r.field) in {ByText, Unchecked}
    {
      SlotAgreement(kind, r.field);
    }
  }

  lemma {:induction false} Ipv4Payload(r: Rule)
    requires Compiles(r) && r.value.Cidr4?
    ensures WireOf(r.field) == WIpv4 && SlotOf(r.field) == SIpv4
    ensures 1 <= r.value.suffix <= 32 && ParseIpv4(r.value.octets4, r.value.suffix).Some?
    ensures StringToMessage(r.field, r.value) == Some(Little(ParseIpv4(r.value.octets4, r.value.suffix).value, 8))
  {
    Ipv4SuffixInRange(r.value);
  }

  lemma {:induction false} Ipv4RuleSurvives(r: Rule)
    requires r.Typed() && Compiles(r) && r.value.Cidr4? && KnownField(r.field)
    ensures Survives(r)
  {
    Ipv4Payload(r);
    Ipv4Survives(r.value.octets4, r.value.suffix);
    Ipv4Made(r.op, r.field, StringToMessage(r.field, r.value).value);
    Ipv4ItemMeans(r, Made(r).value);
  }

  lemma {:induction false} Ipv4Made(op: nat, field: nat, p: seq<byte>)
    requires SlotOf(field) == SIpv4 && |p| == 8
    ensures MakeItem(op, field, 8, p + [0]) == Some(Blank(op, field).(mask := MaskOf(p), subnet := SubnetOf(p)))
  {
    assert Read(p + [0], 8) == p;
  }

  lemma Ipv4Checks(kind: Kind, field: nat)
    requires WireOf(field) == WIpv4
    ensures CheckOf(kind, field) == if kind.Network? then ByIpv4 else Unchecked
  {
  }

  lemma {:induction false} Ipv4ItemMeans(r: Rule, item: Item)
    requires r.value.Cidr4? && 1 <= r.value.suffix <= 32 && WireOf(r.field) == WIpv4
    requires item.field == r.field && item.mask == Pow2(r.value.suffix) - 1
    requires item.subnet == Bytes.Value(r.value.octets4) % Pow2(r.value.suffix)
    ensures SameMeaning(r, item)
  {
    forall kind, ev, before
      ensures Satisfied(kind, item, ev, before) <==> RuleHolds(kind, r, ev)
    {
      Ipv4ItemHolds(kind, r, item, ev, before);
    }
  }

  lemma Ipv4ItemHolds(kind: Kind, r: Rule, item: Item, ev: Event, before: nat)
    requires r.value.Cidr4? && 1 <= r.value.suffix <= 32 && WireOf(r.field) == WIpv4
    requires item.field == r.field && item.mask == Pow2(r.value.suffix) - 1
    requires item.subnet == Bytes.Value(r.value.octets4) % Pow2(r.value.suffix)
    ensures Satisfied(kind, item, ev, before) <==> RuleHolds(kind, r, ev)
  {
    Ipv4Item(kind, item, ev, before);
    Ipv4Rule(kind, r, ev);
    if kind.Network? {
      Ipv4Decides(r.value.octets4, r.value.suffix, item, ev);
    }
  }

  lemma Ipv4Item(kind: Kind, item: Item, ev: Event, before: nat)
    requires WireOf(item.field) == WIpv4
    ensures Satisfied(kind, item, ev, before)
      <==> kind.Network? && Ipv4Holds(item.mask, item.subnet, V4(ev, item.field), Swaps(ev.route))
  {
    Ipv4Checks(kind, item.field);
  }

  lemma Ipv4Rule(kind: Kind, r: Rule, ev: Event)
    requires r.value.Cidr4? && 1 <= r.value.suffix <= 32 && WireOf(r.field) == WIpv4
    ensures var address := Octets4(ev, r.field);
      RuleHolds(kind, r, ev) <==> kind.Network? && Bytes.Value(address) != 0
                                  && LowAgree(r.value.octets4, Compared(address, ev.route), r.value.suffix)
  {
    Ipv4Checks(kind, r.field);
  }

  lemma Ipv4Decides(octets: Ipv4Address, s: nat, item: Item, ev: Event)
    requires 1 <= s <= 32 && item.mask == Pow2(s) - 1 && item.subnet == Bytes.Value(octets) % Pow2(s)
    ensures Ipv4Holds(item.mask, item.subnet, V4(ev, item.field), Swaps(ev.route)) <==>
      Bytes.Value(Octets4(ev, item.field)) != 0 && LowAgree(octets, Compared(Octets4(ev, item.field), ev.route), s)
  {
    CompiledHoldsIff(octets, s, Octets4(ev, item.field), item.mask, item.subnet, ev.route);
  }

  lemma {:induction false} Ipv6RuleSurvives(r: Rule)
    requires r.Typed() && Compiles(r) && r.value.Cidr6? && KnownField(r.field)
    ensures Survives(r)
  {
    var p := r.value.octets6 + [r.value.prefix];
    assert Read(p + [0], 17) == p;
    assert p[..16] == r.value.octets6;
    forall kind
      ensures CheckOf(kind, r.field) in {ByIpv6, Unchecked}
    {
      SlotAgreement(kind, r.field);
    }
  }

  lemma {:induction false} KnownSurvives(r: Rule)
    requires r.Typed() && Compiles(r) && KnownField(r.field)
    ensures Survives(r)
  {
    match r.value
    case Text(_) => TextSurvives(r);
    case Number(_) => NumberSurvives(r);
    case Cidr4(_, _) => Ipv4RuleSurvives(r);
    case Cidr6(_, _) => Ipv6RuleSurvives(r);
  }

  /**
   The rule codec preserves meaning: a compiled rule's blob decodes if and only if the driver
   knows its field, and then into an item that hits exactly when the rule holds.
   */
  lemma {:induction false} RuleSurvives(r: Rule, list: nat, id: nat, actions: nat)
    requires r.Typed() && Compiles(r) && list < 0x1_0000 && id < 0x1_0000_0000 && actions < 0x1_0000_0000
    ensures var d := Decode(BlobOf(r, list, id, actions));
      && (if KnownField(r.field) then d.Loads? else d.Drops?)
      && (d.Loads? ==> d.loaded.id == id && d.loaded.actions == actions && SameMeaning(r, d.loaded.item))
  {
    DecodeIsMade(r, list, id, actions);
    assert KnownField(r.field) ==> Survives(r) by {
      if KnownField(r.field) {
        KnownSurvives(r);
      }
    }
  }

  // ----- where the meaning is not the documented one

  predicate Numeric(op: nat) {
    op in {AND, NOT_AND, EQUALS, NOT_EQUALS, GREATER_THAN, NOT_GREATER_THAN, GREAT_OR_EQUAL,
           LESS_THAN, NOT_LESS_THAN, LESS_OR_EQUAL}
  }

  /**
   A rule on the network direction is decoded into one slot and compared through another that
   stays zero. With a numeric operator it means what its value says if and only if the value is 0.
   */
  lemma DirectionRuleIff(r: Rule)
    requires r.field == NET_DIRECTION && r.value.Number? && -128 <= r.value.n < 128 && Numeric(r.op)
    ensures (forall ev :: RuleHolds(Network, r, ev) <==> NumberHolds(r.op, Num(ev, r.field), r.value.n, 1))
      <==> r.value.n == 0
  {
    var v := r.value.n;
    if v != 0 {
      var x :=
        if r.op == NOT_AND then v
        else if r.op in {GREATER_THAN, NOT_LESS_THAN, LESS_OR_EQUAL} then (if v > 0 then v else 0)
        else if r.op in {GREAT_OR_EQUAL, LESS_THAN, NOT_GREATER_THAN} then (if v > 0 then 0 else v)
        else 0;
      var ev := Event(map[NET_DIRECTION := x], map[], map[], map[], AsReceived);
      assert Pow256(1) == 256;
      assert Pattern(v, 1) != 0 && Pattern(0, 1) == 0;
      assert forall y: nat :: And(0, y) == 0 && And(y, 0) == 0;
      assert Num(ev, r.field) == x;
      assert RuleHolds(Network, r, ev) != NumberHolds(r.op, x, v, 1);
    }
  }

  // ----- subnet rules and their operator

  predicate SubnetRule(r: Rule) {
    if r.value.Cidr4? then r.field == NET_LOCAL_IPV4_ADDR || r.field == NET_REMOTE_IPV4_ADDR
    else r.value.Cidr6? && (r.field == NET_LOCAL_IPV6_ADDR || r.field == NET_REMOTE_IPV6_ADDR)
  }

  function SuffixOf(r: Rule): int
    requires SubnetRule(r)
  {
    if r.value.Cidr4? then r.value.suffix else r.value.prefix
  }

  /** The event carries an address in the rule's field. */
  predicate AddressPresent(r: Rule, ev: Event)
    requires SubnetRule(r)
  {
    if r.value.Cidr4? then Bytes.Value(Octets4(ev, r.field)) != 0 else r.field in ev.v6
  }

  /** The address lies in the rule's subnet. */
  ghost predicate InSubnet(r: Rule, ev: Event)
    requires SubnetRule(r) && Compiles(r) && AddressPresent(r, ev)
  {
    SubnetCompiles(r);
    if r.value.Cidr4? then PrefixAgree(r.value.octets4, Octets4(ev, r.field), r.value.suffix)
    else PrefixAgree(r.value.octets6, ev.v6[r.field], r.value.prefix)
  }

  /** The two operators described for addresses: "equals" asks for the subnet, "notequals" for its complement. */
  ghost predicate SubnetDocumented(r: Rule, ev: Event)
    requires SubnetRule(r) && Compiles(r) && AddressPresent(r, ev)
  {
    if r.op == EQUALS then InSubnet(r, ev) else !InSubnet(r, ev)
  }

  lemma SubnetCompiles(r: Rule)
    requires SubnetRule(r) && Compiles(r)
    ensures r.value.Cidr4? ==> 1 <= r.value.suffix <= 32
    ensures r.value.Cidr6? ==> 1 <= r.value.prefix <= 128
  {
    if r.value.Cidr4? {
      Ipv4SuffixInRange(r.value);
    }
  }

  function OnAddress(r: Rule, address: seq<byte>, route: Route): Event
    requires SubnetRule(r) && |address| == if r.value.Cidr4? then 4 else 16
  {
    if r.value.Cidr4? then Event(map[], map[], map[r.field := address], map[], route)
    else Event(map[], map[], map[], map[r.field := address], route)
  }

  /** What the driver compares for a subnet rule: IPv6 addresses come as they are. */
  function OctetsSeen(address: seq<byte>, route: Route): (o: seq<byte>)
    ensures |o| == |address|
  {
    if |address| == 4 then Compared(address, route) else address
  }

  /** A non-zero address outside the subnet in the driver's reading and in the documented one. */
  lemma OutsideBoth(octets: seq<byte>, p: nat, route: Route) returns (address: seq<byte>)
    requires |octets| == 4 || |octets| == 16
    requires 1 <= p <= 8 * |octets|
    ensures |address| == |octets| && Bytes.Value(address) != 0
    ensures !LowAgree(octets, OctetsSeen(address, route), p) && !PrefixAgree(octets, address, p)
  {
    if |octets| == 4 && route.SwappedTwice? {
      address := octets[3 := if octets[0] % 2 == 0 then 1 else 0][0 := Flipped(octets[0], true)];
    } else {
      address := octets[|octets| - 1 := 1][0 := Flipped(Flipped(octets[0], false), true)];
    }
    OtherParity(octets, OctetsSeen(address, route), p);
    TopBitsDiffer(octets, address, p);
    ZeroOctets(address);
    assert address[0] != 0 || address[|octets| - 1] != 0;
  }

  lemma OtherParity(a: seq<byte>, b: seq<byte>, p: nat)
    requires a != [] && |a| == |b| && 1 <= p <= 8 * |a| && a[0] % 2 != b[0] % 2
    ensures !LowAgree(a, b, p)
  {
    if LowAgree(a, b, p) {
      BottomBitsAgree(a, b, p);
    }
  }

  lemma TopBitsDiffer(a: seq<byte>, b: seq<byte>, p: nat)
    requires a != [] && |a| == |b| && 1 <= p <= 8 * |a|
    requires b[0] in {Flipped(a[0], true), Flipped(Flipped(a[0], false), true)}
    ensures !PrefixAgree(a, b, p)
  {
    var x := Flipped(a[0], false);
    FlippedBits(a[0], 1);
    FlippedBits(x, 1);
    assert OctetBits(x)[..1][0] == OctetBits(a[0])[..1][0];
    assert OctetBits(b[0])[0] != OctetBits(a[0])[0];
    assert AddressBits(a)[..p][0] == OctetBits(a[0])[0] && AddressBits(b)[..p][0] == OctetBits(b[0])[0];
  }

  /** When a subnet rule is decided as documented on a route: a condition on the rule alone. */
  predicate SubnetExact(r: Rule, route: Route)
    requires SubnetRule(r)
  {
    && r.op == EQUALS
    && if r.value.Cidr4? then r.value.suffix >= 0 && RouteExact(r.value.octets4, r.value.suffix, route)
       else r.value.prefix % 8 == 0
  }

  /** An address on which the driver decides a rule otherwise than documented. */
  lemma SubnetDeviates(r: Rule, route: Route) returns (ev: Event)
    requires SubnetRule(r) && Compiles(r) && r.op in {EQUALS, NOT_EQUALS} && !SubnetExact(r, route)
    ensures ev.route == route && AddressPresent(r, ev)
    ensures RuleHolds(Network, r, ev) != SubnetDocumented(r, ev)
  {
    SubnetCompiles(r);
    var octets: seq<byte> := if r.value.Cidr4? then r.value.octets4 else r.value.octets6;
    var p := SuffixOf(r);
    var address;
    if r.op == NOT_EQUALS {
      address := OutsideBoth(octets, p, route);
    } else if r.value.Cidr4? {
      address := InexactDiffers(octets, p, route);
    } else {
      FlippedSplits(octets, p, true);
      address := octets[p / 8 := Flipped(octets[p / 8], true)];
    }
    ev := OnAddress(r, address, route);
  }

  /**
   A subnet rule is decided as documented on every address that comes by a route if and only if
   its operator is "equals" and the route gives the subnet match: for a whole number of octets,
   or, from the resource-assignment layer, for one IPv4 address that reads the same backwards.
   */
  lemma SubnetRuleIff(r: Rule, route: Route)
    requires SubnetRule(r) && Compiles(r) && r.op in {EQUALS, NOT_EQUALS}
    ensures (forall ev: Event :: ev.route == route && AddressPresent(r, ev) ==>
        (RuleHolds(Network, r, ev) <==> SubnetDocumented(r, ev)))
      <==> SubnetExact(r, route)
  {
    SubnetCompiles(r);
    if SubnetExact(r, route) {
      forall ev: Event | ev.route == route && AddressPresent(r, ev)
        ensures RuleHolds(Network, r, ev) <==> SubnetDocumented(r, ev)
      {
        if r.value.Cidr4? {
          ExactAgrees(r.value.octets4, r.value.suffix, Octets4(ev, r.field), route);
        } else {
          WholeOctetsAgree(r.value.octets6, ev.v6[r.field], r.value.prefix);
        }
      }
    } else {
      var ev := SubnetDeviates(r, route);
    }
  }
}
