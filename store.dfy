/** PacketModel: the list of captured records behind the packet table. New
    records are prepended, so row 0 is always the newest. */
module Store {
  import opened Common
  import opened Packet

  /** The list in reverse order. */
  function Reversed<T>(s: seq<T>): (r: seq<T>)
    ensures |r| == |s|
  {
    if s == [] then [] else [s[|s| - 1]] + Reversed(s[..|s| - 1])
  }

  /** Row i of the reversed list is entry |s| - 1 - i of the list. */
  lemma {:induction false} ReversedAt<T>(s: seq<T>, i: nat)
    requires i < |s|
    ensures Reversed(s)[i] == s[|s| - 1 - i]
    decreases |s|
  {
    if i > 0 {
      ReversedAt(s[..|s| - 1], i - 1);
    }
  }

  /** Appending at the end of the list prepends to its reversal. */
  lemma ReversedSnoc<T>(s: seq<T>, x: T)
    ensures Reversed(s + [x]) == [x] + Reversed(s)
  {
    assert (s + [x])[..|s|] == s;
  }

  /** Reversing twice gives the list back. */
  lemma ReversedTwice<T>(s: seq<T>)
    ensures Reversed(Reversed(s)) == s
  {
    forall i | 0 <= i < |s|
      ensures Reversed(Reversed(s))[i] == s[i]
    {
      ReversedAt(Reversed(s), i);
      ReversedAt(s, |s| - 1 - i);
    }
  }

  /** A QModelIndex: either invalid, or a cell on a row. */
  datatype ModelIndex = Invalid | Index(row: nat)

  /** The QVariant data() returns: empty, a number or a text. */
  datatype Value = Empty | Number(n: int) | Text(s: string)

  const USER_ROLE: int := 0x0100
  const NumberRole: int := USER_ROLE + 1
  const TimestampRole: int := USER_ROLE + 2
  const TimestampSecsRole: int := USER_ROLE + 3
  const SourceRole: int := USER_ROLE + 4
  const DestinationRole: int := USER_ROLE + 5
  const SrcPortRole: int := USER_ROLE + 6
  const DstPortRole: int := USER_ROLE + 7
  const ProtocolRole: int := USER_ROLE + 8
  const LengthRole: int := USER_ROLE + 9
  const InterfaceRole: int := USER_ROLE + 10
  const InfoRole: int := USER_ROLE + 11

  /** The roles data() answers from a field of the record. */
  predicate FieldRole(role: int)
  {
    role in {NumberRole, TimestampRole, SourceRole, DestinationRole, SrcPortRole,
             DstPortRole, ProtocolRole, LengthRole, InfoRole}
  }

  /** The field of `p` that `role` selects. */
  function RoleValue(p: PacketInfo, role: int): (v: Value)
    ensures v.Empty? <==> !FieldRole(role)
  {
    if role == NumberRole then Number(p.number)
    else if role == TimestampRole then Text(p.timestamp)
    else if role == SourceRole then Text(p.source)
    else if role == DestinationRole then Text(p.destination)
    else if role == SrcPortRole then Number(p.srcPort)
    else if role == DstPortRole then Number(p.dstPort)
    else if role == ProtocolRole then Text(p.protocol)
    else if role == LengthRole then Number(p.length)
    else if role == InfoRole then Text(p.info)
    else Empty
  }

  /** Different records differ in some role. */
  lemma RolesSeparate(p: PacketInfo, q: PacketInfo)
    requires forall role :: FieldRole(role) ==> RoleValue(p, role) == RoleValue(q, role)
    ensures p.number == q.number && p.timestamp == q.timestamp && p.source == q.source
    ensures p.destination == q.destination && p.srcPort == q.srcPort && p.dstPort == q.dstPort
    ensures p.protocol == q.protocol && p.length == q.length && p.info == q.info
  {
    assert RoleValue(p, NumberRole) == RoleValue(q, NumberRole);
    assert RoleValue(p, TimestampRole) == RoleValue(q, TimestampRole);
    assert RoleValue(p, SourceRole) == RoleValue(q, SourceRole);
    assert RoleValue(p, DestinationRole) == RoleValue(q, DestinationRole);
    assert RoleValue(p, SrcPortRole) == RoleValue(q, SrcPortRole);
    assert RoleValue(p, DstPortRole) == RoleValue(q, DstPortRole);
    assert RoleValue(p, ProtocolRole) == RoleValue(q, ProtocolRole);
    assert RoleValue(p, LengthRole) == RoleValue(q, LengthRole);
    assert RoleValue(p, InfoRole) == RoleValue(q, InfoRole);
  }

  class PacketModel {
    /** The rows, newest first. */
    var packets: seq<PacketInfo>
    /** The records added since the last clear, in the order of the calls. */
    ghost var added: seq<PacketInfo>

    ghost predicate Valid()
      reads this
    {
      packets == Reversed(added)
    }

    constructor ()
      ensures Valid() && packets == [] && added == []
    {
      packets := [];
      added := [];
    }

    /** rowCount: the number of records held. */
    method RowCount() returns (n: int)
      requires Valid()
      ensures n == |packets| == |added|
    {
      n := |packets|;
    }

    /** addPacket: the new record becomes row 0 and every older row moves
        down by one, unchanged. */
    method AddPacket(packet: PacketInfo)
      requires Valid()
      modifies this
      ensures Valid() && added == old(added) + [packet]
      ensures packets == [packet] + old(packets)
      ensures |packets| == |old(packets)| + 1 && packets[0] == packet
      ensures forall i :: 0 <= i < |old(packets)| ==> packets[i + 1] == old(packets)[i]
    {
      packets := [packet] + packets;
      ReversedSnoc(added, packet);
      added := added + [packet];
    }

    /** clear: no rows afterwards. */
    method Clear()
      modifies this
      ensures Valid() && packets == [] && added == []
    {
      packets := [];
      added := [];
    }

    /** getPacket: the record on the row when there is one, a
        value-initialised record otherwise. */
    method GetPacket(row: int) returns (packet: PacketInfo)
      requires Valid()
      ensures 0 <= row < |packets| ==> packet == packets[row] == added[|added| - 1 - row]
      ensures !(0 <= row < |packets|) ==> packet == DefaultPacket
    {
      if 0 <= row < |packets| {
        ReversedAt(added, row);
        return packets[row];
      }
      return DefaultPacket;
    }

    /** getAllPackets: the records newest first, the reverse of the order
        in which they were added. */
    method GetAllPackets() returns (all: seq<PacketInfo>)
      requires Valid()
      ensures all == packets && Reversed(all) == added
    {
      ReversedTwice(added);
      all := packets;
    }

    /** data: the empty value for an invalid index or a row past the end;
        otherwise the field the role names, and the empty value for any
        other role. */
    method Data(index: ModelIndex, role: int) returns (v: Value)
      requires Valid()
      ensures index.Invalid? || index.row >= |packets| ==> v == Empty
      ensures index.Index? && index.row < |packets| ==> v == RoleValue(packets[index.row], role)
    {
      if index.Invalid? || index.row >= |packets| {
        return Empty;
      }
      var packet := packets[index.row];
      v := RoleValue(packet, role);
    }
  }
}
