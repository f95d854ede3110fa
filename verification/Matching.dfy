/**
 Loaded rules and their evaluation: which slot of a rule item each matcher compares with
 which field of an event, and how hits are counted over a group of items.
 */
module Matching {
  import opened Bytes
  import opened Operators
  import opened Addresses
  import opened Options

  const IMAGE_FILE_NAME := 0x81
  const COMMAND_LINE := 0x82
  const PARENT_IMAGE_FILE_NAME := 0x85
  const PARENT_COMMAND_LINE := 0x86
  const PCWD := 0x87
  const PWINDOW_TITLE := 0x89
  const CREATION_STATUS := 0x91
  const LOADED_MODULE := 0x93
  const MODULE_PROPERTIES := 0x94
  const TARGET_IMAGE_FILE_NAME := 0x95
  const TARGET_COMMAND_LINE := 0x96
  const PHOPERATION := 0x99
  const PHORIGINAL_DESIRED_ACCESS := 0x9B
  const REG_KEY := 0x9C
  const REG_KEY_NEW := 0x9D
  const REG_VALUE_NAME := 0x9E
  const REG_DATA := 0x9F
  const REG_OP := 0xB0
  const REG_OLD_FILE_NAME := 0xB1
  const REG_NEW_FILE_NAME := 0xB2
  const REG_DATA_TYPE := 0xB3
  const FILE_NAME := 0xB5
  const FILE_PARENT_DIR := 0xBB
  const FILE_FLAGS := 0xBC
  const FILE_CREATION_TIME := 0xBD
  const FILE_CHANGE_TIME := 0xBE
  const FILE_ACCESS_FLAGS := 0xBF
  const FILE_NEW_NAME := 0xC0
  const FILE_NETWORK_PROTOCOL := 0xC1
  const FILE_NETWORK_PROTOCOL_VERSION_MAJOR := 0xC2
  const FILE_NETWORK_PROTOCOL_VERSION_MINOR := 0xC3
  const NAMED_PIPE_TYPE := 0xC4
  const NAMED_PIPE_END := 0xC7
  const FILE_DELETION := 0xC8
  const FILE_OPERATION := 0xC9
  const WFP_LAYER := 0xCA
  const NET_DIRECTION := 0xCB
  const NET_IP_PROTOCOL := 0xCC
  const NET_PROMISCUOUS := 0xCE
  const NET_LOCAL_PORT := 0xCF
  const NET_REMOTE_PORT := 0xD0
  const NET_LOCAL_IPV4_ADDR := 0xD1
  const NET_REMOTE_IPV4_ADDR := 0xD2
  const NET_INTERFACE_TYPE := 0xD3
  const NET_INTERFACE := 0xD4
  const NET_LOCAL_IPV6_ADDR := 0xD5
  const NET_REMOTE_IPV6_ADDR := 0xD6
  const TARGET_PARENT_IMAGE_FILE_NAME := 0xD7
  const TARGET_PCWD := 0xDA
  const SID_DATA := 0xDB

  type Ipv4Address = s: seq<byte> | |s| == 4 witness [0, 0, 0, 0]

  type Ipv6Address = s: seq<byte> | |s| == 16 witness [0, 0, 0, 0, 0, 0, 0, 0, 0, 0, 0, 0, 0, 0, 0, 0]

  /** A loaded rule with one slot per data type; slots not decoded stay zero. */
  datatype Item = Item(
    op: nat, field: nat, boolean: bool, int8: int, uint8: nat, ushort: nat, ulong: nat, longlong: int,
    mask: nat, subnet: nat, prefix: byte, net6: Option<Ipv6Address>, text: seq<byte>)

  datatype Group = Group(id: nat, actions: nat, items: seq<Item>)

  /**
   An event's fields by number; absent numbers are zero, absent strings and IPv6 addresses
   NULL. `route` says how IPv4 addresses got into the event.
   */
  datatype Event = Event(
    numbers: map<nat, int>, texts: map<nat, seq<byte>>, v4: map<nat, Ipv4Address>, v6: map<nat, Ipv6Address>,
    route: Route)

  datatype Kind = Process | FileCreate | FileSet | Registry | Network

  datatype Check =
    | ByUlong | ByUshort | ByUint8 | ByInt8 | ByLonglong | ByText | ByIpv4 | ByIpv6 | ByDeletion | Unchecked

  predicate ProcessText(field: nat) {
    field == IMAGE_FILE_NAME || field == PARENT_IMAGE_FILE_NAME || field == COMMAND_LINE
    || field == PARENT_COMMAND_LINE || field == PWINDOW_TITLE || field == PCWD
  }

  predicate FileText(field: nat) {
    FILE_NAME <= field <= FILE_PARENT_DIR
  }

  predicate RegistryText(field: nat) {
    field == REG_KEY || field == REG_KEY_NEW || field == REG_VALUE_NAME
    || field == REG_OLD_FILE_NAME || field == REG_NEW_FILE_NAME
  }

  /** The switch of each matcher: how it checks a field, if at all. */
  function CheckOf(kind: Kind, field: nat): Check {
    if ProcessText(field) || (field == TARGET_IMAGE_FILE_NAME && !kind.Process?) then ByText else
    match kind
    case Process => Unchecked
    case FileCreate =>
      if FileText(field) then ByText else if field == FILE_FLAGS then ByUlong else Unchecked
    case FileSet =>
      if FileText(field) || field == FILE_NEW_NAME then ByText
      else if field == FILE_OPERATION || field == FILE_ACCESS_FLAGS || field == FILE_NETWORK_PROTOCOL
              || NAMED_PIPE_TYPE <= field <= NAMED_PIPE_END then ByUlong
      else if field == FILE_NETWORK_PROTOCOL_VERSION_MAJOR || field == FILE_NETWORK_PROTOCOL_VERSION_MINOR
      then ByUshort
      else if field == FILE_CREATION_TIME || field == FILE_CHANGE_TIME then ByLonglong
      else if field == FILE_DELETION then ByDeletion
      else Unchecked
    case Registry =>
      if RegistryText(field) then ByText
      else if field == REG_OP || field == REG_DATA_TYPE then ByUlong
      else Unchecked
    case Network =>
      if field == WFP_LAYER || field == NET_LOCAL_PORT || field == NET_REMOTE_PORT then ByUshort
      else if field == NET_DIRECTION then ByInt8
      else if NET_IP_PROTOCOL <= field <= NET_PROMISCUOUS then ByUint8
      else if field == NET_INTERFACE_TYPE then ByUlong
      else if field == NET_INTERFACE then ByLonglong
      else if field == NET_LOCAL_IPV4_ADDR || field == NET_REMOTE_IPV4_ADDR then ByIpv4
      else if field == NET_LOCAL_IPV6_ADDR || field == NET_REMOTE_IPV6_ADDR then ByIpv6
      else Unchecked
  }

  /** The event member a field reads: the target image is the image of the acting process. */
  function Source(field: nat): nat {
    if field == TARGET_IMAGE_FILE_NAME then IMAGE_FILE_NAME else field
  }

  function Num(ev: Event, field: nat): int {
    if field in ev.numbers then ev.numbers[field] else 0
  }

  function Octets4(ev: Event, field: nat): Ipv4Address {
    if field in ev.v4 then ev.v4[field] else [0, 0, 0, 0]
  }

  /** The number the callback stores of an address. */
  function V4(ev: Event, field: nat): nat {
    Reported(Octets4(ev, field), ev.route)
  }

  /**
   Whether an item counts as a hit. Only the file-deletion item depends on its place in the
   group: it hits when the number of hits before it equals its boolean.
   */
  ghost predicate Satisfied(kind: Kind, item: Item, ev: Event, hitsBefore: nat) {
    match CheckOf(kind, item.field)
    case ByUlong => NumberHolds(item.op, Num(ev, item.field), item.ulong, 4)
    case ByUshort => NumberHolds(item.op, Num(ev, item.field), item.ushort, 2)
    case ByUint8 => NumberHolds(item.op, Num(ev, item.field), item.uint8, 1)
    case ByInt8 => NumberHolds(item.op, Num(ev, item.field), item.int8, 1)
    case ByLonglong => NumberHolds(item.op, Num(ev, item.field), item.longlong, 8)
    case ByText =>
      Source(item.field) in ev.texts && StringHolds(item.op, ev.texts[Source(item.field)], item.text)
    case ByIpv4 => Ipv4Holds(item.mask, item.subnet, V4(ev, item.field), Swaps(ev.route))
    case ByIpv6 =>
      item.field in ev.v6 && item.net6.Some? && Ipv6Holds(item.net6.value, item.prefix, ev.v6[item.field])
    case ByDeletion => hitsBefore == if item.boolean then 1 else 0
    case Unchecked => false
  }

  method Evaluate(kind: Kind, item: Item, ev: Event, matches: nat) returns (after: nat)
    ensures after == matches + if Satisfied(kind, item, ev, matches) then 1 else 0
  {
    after := matches;
    var field := item.field;
    match CheckOf(kind, field) {
      case ByUlong => after := CheckNumber(item.op, item.ulong, Num(ev, field), 4, matches);
      case ByUshort => after := CheckNumber(item.op, item.ushort, Num(ev, field), 2, matches);
      case ByUint8 => after := CheckNumber(item.op, item.uint8, Num(ev, field), 1, matches);
      case ByInt8 => after := CheckNumber(item.op, item.int8, Num(ev, field), 1, matches);
      case ByLonglong => after := CheckNumber(item.op, item.longlong, Num(ev, field), 8, matches);
      case ByText =>
        if Source(field) in ev.texts {
          after := CheckUnicode(item.op, item.text, ev.texts[Source(field)], matches);
        }
      case ByIpv4 => after := CheckIpv4(item.mask, item.subnet, V4(ev, field), Swaps(ev.route), matches);
      case ByIpv6 =>
        if field in ev.v6 && item.net6.Some? {
          after := CheckIpv6(item.net6.value, item.prefix, ev.v6[field], matches);
        }
      case ByDeletion => after := if matches == (if item.boolean then 1 else 0) then matches + 1 else matches;
      case Unchecked =>
    }
  }

  // ----- which member of the event a field is compared with

  /** The event has this string, and the operator holds between it and `v`. */
  ghost predicate TextAt(ev: Event, member: nat, op: int, v: seq<byte>) {
    member in ev.texts && StringHolds(op, ev.texts[member], v)
  }

  /** The operator holds between this number of the event, zero if it is absent, and `v`. */
  predicate NumberAt(ev: Event, member: nat, op: int, v: int, width: nat) {
    NumberHolds(op, if member in ev.numbers then ev.numbers[member] else 0, v, width)
  }

  /**
   Process lists match six strings of the process: image (0x81), command line (0x82), parent's
   image (0x85) and command line (0x86), working directory (0x87) and window title (0x89).
   */
  lemma ProcessItemAsks(item: Item, ev: Event, before: nat)
    ensures Satisfied(Process, item, ev, before)
      <==> item.field in {0x81, 0x82, 0x85, 0x86, 0x87, 0x89} && TextAt(ev, item.field, item.op, item.text)
  {
  }

  /** The other lists match these too, and take the target image (0x95) for the image of the acting process. */
  lemma ActingProcessAsks(kind: Kind, item: Item, ev: Event, before: nat)
    requires !kind.Process?
    ensures item.field in {0x81, 0x82, 0x85, 0x86, 0x87, 0x89} ==>
      (Satisfied(kind, item, ev, before) <==> TextAt(ev, item.field, item.op, item.text))
    ensures item.field == 0x95 ==>
      (Satisfied(kind, item, ev, before) <==> TextAt(ev, 0x81, item.op, item.text))
  {
  }

  predicate ActingProcess(field: nat) {
    field in {0x81, 0x82, 0x85, 0x86, 0x87, 0x89, 0x95}
  }

  /** File creation: the seven parts of the name, and the flags. */
  lemma FileCreateItemAsks(item: Item, ev: Event, before: nat)
    requires !ActingProcess(item.field)
    ensures Satisfied(FileCreate, item, ev, before) <==>
      || (0xB5 <= item.field <= 0xBB && TextAt(ev, item.field, item.op, item.text))
      || (item.field == 0xBC && NumberAt(ev, 0xBC, item.op, item.ulong, 4))
  {
  }

  /**
   File changes: the parts of the name and the new name (0xC0); operation, access flags, protocol
   and pipe numbers; the protocol's two versions; two times; and whether the file is deleted.
   */
  lemma FileSetItemAsks(item: Item, ev: Event, before: nat)
    requires !ActingProcess(item.field)
    ensures Satisfied(FileSet, item, ev, before) <==>
      || ((0xB5 <= item.field <= 0xBB || item.field == 0xC0) && TextAt(ev, item.field, item.op, item.text))
      || (item.field in {0xBF, 0xC1, 0xC4, 0xC5, 0xC6, 0xC7, 0xC9}
         && NumberAt(ev, item.field, item.op, item.ulong, 4))
      || (item.field in {0xC2, 0xC3} && NumberAt(ev, item.field, item.op, item.ushort, 2))
      || (item.field in {0xBD, 0xBE} && NumberAt(ev, item.field, item.op, item.longlong, 8))
      || (item.field == 0xC8 && before == if item.boolean then 1 else 0)
  {
  }

  /** Registry operations: key, new key, value name, old and new file name; operation and data type. */
  lemma RegistryItemAsks(item: Item, ev: Event, before: nat)
    requires !ActingProcess(item.field)
    ensures Satisfied(Registry, item, ev, before) <==>
      || (item.field in {0x9C, 0x9D, 0x9E, 0xB1, 0xB2} && TextAt(ev, item.field, item.op, item.text))
      || (item.field in {0xB0, 0xB3} && NumberAt(ev, item.field, item.op, item.ulong, 4))
  {
  }

  /**
   Network events: layer and ports (0xCA, 0xCF, 0xD0); direction (0xCB), protocol and the two
   flags behind it; interface type and interface.
   */
  lemma NetworkItemAsks(item: Item, ev: Event, before: nat)
    requires !ActingProcess(item.field) && item.field !in {0xD1, 0xD2, 0xD5, 0xD6}
    ensures Satisfied(Network, item, ev, before) <==>
      || (item.field in {0xCA, 0xCF, 0xD0} && NumberAt(ev, item.field, item.op, item.ushort, 2))
      || (item.field == 0xCB && NumberAt(ev, 0xCB, item.op, item.int8, 1))
      || (item.field in {0xCC, 0xCD, 0xCE} && NumberAt(ev, item.field, item.op, item.uint8, 1))
      || (item.field == 0xD3 && NumberAt(ev, 0xD3, item.op, item.ulong, 4))
      || (item.field == 0xD4 && NumberAt(ev, 0xD4, item.op, item.longlong, 8))
  {
  }

  /** Local and remote IPv4 addresses that the event has, as the callback stored them. */
  lemma Ipv4ItemAsks(item: Item, ev: Event, before: nat)
    requires item.field in {0xD1, 0xD2} && item.field in ev.v4
    ensures Satisfied(Network, item, ev, before) <==>
      Ipv4Holds(item.mask, item.subnet, Reported(ev.v4[item.field], ev.route), Swaps(ev.route))
  {
  }

  /** Local and remote IPv6 addresses. */
  lemma Ipv6ItemAsks(item: Item, ev: Event, before: nat)
    requires item.field in {0xD5, 0xD6}
    ensures Satisfied(Network, item, ev, before) <==>
      item.field in ev.v6 && item.net6.Some? && Ipv6Holds(item.net6.value, item.prefix, ev.v6[item.field])
  {
  }

  /** A group matches when every one of its items hits, each counting the hits before it. */
  ghost predicate GroupMatches(kind: Kind, g: Group, ev: Event) {
    forall j :: 0 <= j < |g.items| ==> Satisfied(kind, g.items[j], ev, j)
  }

  /** Counting hits and comparing with the number of items decides the conjunction. */
  method CountHits(kind: Kind, g: Group, ev: Event) returns (hit: bool)
    requires g.items != []
    ensures hit <==> GroupMatches(kind, g, ev)
  {
    var matches := 0;
    var j := 0;
    while j == 0 || j < |g.items|
      invariant j <= |g.items| && matches <= j
      invariant matches == j <==> forall i :: 0 <= i < j ==> Satisfied(kind, g.items[i], ev, i)
      decreases |g.items| - j
    {
      matches := Evaluate(kind, g.items[j], ev, matches);
      j := j + 1;
    }
    return matches >= |g.items|;
  }

  ghost predicate AnyMatches(kind: Kind, groups: seq<Group>, ev: Event) {
    exists k :: 0 <= k < |groups| && GroupMatches(kind, groups[k], ev)
  }

  /** Group `k` is the first of the list to match. */
  ghost predicate FirstMatch(kind: Kind, groups: seq<Group>, ev: Event, k: nat) {
    && k < |groups| && GroupMatches(kind, groups[k], ev)
    && forall j :: 0 <= j < k ==> !GroupMatches(kind, groups[j], ev)
  }

  /** The list matchers: the id and actions of the first matching group, zeros if there is none. */
  method ListMatch(kind: Kind, groups: seq<Group>, ev: Event) returns (matched: bool, id: nat, actions: nat)
    requires forall k :: 0 <= k < |groups| ==> groups[k].items != []
    ensures matched <==> AnyMatches(kind, groups, ev)
    ensures !matched ==> id == 0 && actions == 0
    ensures matched ==>
      exists k: nat :: FirstMatch(kind, groups, ev, k) && id == groups[k].id && actions == groups[k].actions
  {
    matched, id, actions := false, 0, 0;
    for i := 0 to |groups|
      invariant forall j :: 0 <= j < i ==> !GroupMatches(kind, groups[j], ev)
    {
      var hit := CountHits(kind, groups[i], ev);
      if hit {
        assert FirstMatch(kind, groups, ev, i);
        return true, groups[i].id, groups[i].actions;
      }
    }
  }

  lemma FirstMatchUnique(kind: Kind, groups: seq<Group>, ev: Event, j: nat, k: nat)
    requires FirstMatch(kind, groups, ev, j) && FirstMatch(kind, groups, ev, k)
    ensures j == k
  {
  }
}
