/**
 The 29-bit identifier of a frame in the register layouts of the AVR, of the PIC ECAN module
 and of the message objects of the PIC18F-Q84. All values are words; a value stored in an
 eight-bit register or variable is cut to its low byte explicitly.
 */
module CanIds {

  type word = bv32

  /** The header of a frame, as far as it is in the identifier. */
  datatype Header =
    | Unicast(kind: word, source: word, flags: word, destination: word, seqnum: word)
    | Broadcast(kind: word, source: word, group: word)
  {
    /** The bit fields of a frame: five bits of type, the highest tells broadcasts, three of flags, five of number. */
    predicate Fits() {
      match this
      case Unicast(kind, source, flags, destination, seqnum) =>
        kind < 16 && source < 256 && flags < 8 && destination < 256 && seqnum < 32
      case Broadcast(kind, source, group) => 16 <= kind < 32 && source < 256 && group < 0x1_0000
    }
  }

  datatype Registers = Registers(r0: word, r1: word, r2: word, r3: word)

  function Low(w: word): word {
    w & 0xff
  }

  function UnicastId(kind: word, source: word, flags: word, destination: word, seqnum: word): word {
    (kind << 24) | (source << 16) | (flags << 13) | (destination << 5) | seqnum
  }

  function BroadcastId(kind: word, source: word, group: word): word {
    (kind << 24) | (source << 16) | group
  }

  /** The identifier: type, source, and the sixteen bits that depend on the kind of frame. */
  function Id(h: Header): word {
    match h
    case Unicast(kind, source, flags, destination, seqnum) =>
      UnicastId(kind, source, flags, destination, seqnum)
    case Broadcast(kind, source, group) => BroadcastId(kind, source, group)
  }

  /** Where the fields are in the identifier. */
  lemma FieldsOfId(h: Header)
    requires h.Fits()
    ensures Id(h) >> 24 == h.kind && (Id(h) >> 16) & 0xff == h.source
    ensures (Id(h) >> 28) & 1 == if h.Broadcast? then 1 else 0
    ensures h.Broadcast? ==> Id(h) & 0xffff == h.group
    ensures h.Unicast? ==>
      (Id(h) >> 13) & 7 == h.flags && (Id(h) >> 5) & 0xff == h.destination && Id(h) & 0x1f == h.seqnum
  {
  }

  // ---------- AVR: CANIDT1 to CANIDT4 ----------

  function AvrUnicast(kind: word, source: word, flags: word, destination: word, seqnum: word): Registers {
    Registers(Low((kind << 3) | (source >> 5)), Low((source << 3) | (flags & 0x07)), destination,
              Low((seqnum << 3) & 0xf8))
  }

  function AvrBroadcast(kind: word, source: word, group: word): Registers {
    Registers(Low((kind << 3) | (source >> 5)), Low((source << 3) | ((group >> 13) & 0x07)),
              Low((group >> 5) & 0xff), Low((group << 3) & 0xf8))
  }

  function AvrEncode(h: Header): Registers {
    match h
    case Unicast(kind, source, flags, destination, seqnum) => AvrUnicast(kind, source, flags, destination, seqnum)
    case Broadcast(kind, source, group) => AvrBroadcast(kind, source, group)
  }

  function AvrDecode(r: Registers): Header {
    var kind, source := r.r0 >> 3, Low((r.r0 << 5) | (r.r1 >> 3));
    if kind & 16 != 0 then
      Broadcast(kind, source, ((r.r1 << 13) | (r.r2 << 5) | ((r.r3 >> 3) & 0x1f)) & 0xffff)
    else Unicast(kind, source, r.r1 & 0x07, r.r2, r.r3 >> 3)
  }

  /** How the controller lays the identifier out. */
  function AvrRegisters(id: word): Registers {
    Registers(Low(id >> 21), Low(id >> 13), Low(id >> 5), Low(id << 3))
  }

  // ---------- PIC ECAN: SIDH, SIDL, EIDH, EIDL ----------

  function EcanUnicast(kind: word, source: word, flags: word, destination: word, seqnum: word): Registers {
    Registers(Low(kind << 3) | Low(source >> 5), ((source << 3) & 0xe0) | 0x08 | (source & 0x03),
              Low(flags << 5) | Low(destination >> 3), Low(destination << 5) | (seqnum & 0x1f))
  }

  function EcanBroadcast(kind: word, source: word, group: word): Registers {
    Registers(Low(kind << 3) | Low(source >> 5), ((source << 3) & 0xe0) | 0x08 | (source & 0x03),
              group >> 8, group & 0xff)
  }

  function EcanEncode(h: Header): Registers {
    match h
    case Unicast(kind, source, flags, destination, seqnum) => EcanUnicast(kind, source, flags, destination, seqnum)
    case Broadcast(kind, source, group) => EcanBroadcast(kind, source, group)
  }

  function EcanDecode(r: Registers): Header {
    var kind, source := r.r0 >> 3, Low(r.r0 << 5) | Low((r.r1 >> 3) & 0x1c) | (r.r1 & 0x03);
    if kind & 16 != 0 then Broadcast(kind, source, (r.r2 << 8) | r.r3)
    else Unicast(kind, source, r.r2 >> 5, Low(r.r2 << 3) | Low(r.r3 >> 5), r.r3 & 0x1f)
  }

  /** An extended identifier in the ECAN registers; 0x08 marks it as extended. */
  function EcanRegisters(id: word): Registers {
    Registers(Low(id >> 21), ((id >> 13) & 0xe0) | 0x08 | ((id >> 16) & 0x03), Low(id >> 8), Low(id))
  }

  // ---------- PIC18F-Q84: the first four bytes of a message object ----------

  /** canfd_id; `exide` is the extended identifier bit of a filter object. */
  function CanfdEncode(r: Registers, exide: word): Registers {
    Registers(Low(r.r0 << 3) | (r.r1 >> 5), (r.r0 >> 5) | Low(r.r3 << 3), (r.r3 >> 5) | Low(r.r2 << 3),
              (r.r2 >> 5) | Low((r.r1 & 0x03) << 3) | (if r.r1 & 0x08 != 0 then exide else 0))
  }

  /** The identifier part of canfd_tx_write. */
  function CanfdTransmit(r: Registers, exide: word): Registers {
    var obj := CanfdEncode(r, exide);
    obj.(r3 := obj.r3 & 0x1f)
  }

  /** The identifier part of canfd_rx_read. */
  function CanfdReceive(obj: Registers): Registers {
    Registers(Low((obj.r1 & 0x07) << 5) | (obj.r0 >> 3), Low(obj.r0 << 5) | 0x08 | ((obj.r3 >> 3) & 0x03),
              Low((obj.r3 & 0x07) << 5) | (obj.r2 >> 3), Low((obj.r2 & 0x07) << 5) | (obj.r1 >> 3))
  }

  /** A message object holds the standard part of the identifier in bits 0 to 10, the extended part above it. */
  function CanfdObject(id: word): Registers {
    var w := ((id >> 18) & 0x7ff) | ((id & 0x3ffff) << 11);
    Registers(Low(w), Low(w >> 8), Low(w >> 16), w >> 24)
  }

  // ---------- All of them speak of the same identifier ----------

  lemma UnicastSent(kind: word, source: word, flags: word, destination: word, seqnum: word)
    requires kind < 16 && source < 256 && flags < 8 && destination < 256 && seqnum < 32
    ensures var id := UnicastId(kind, source, flags, destination, seqnum);
      && AvrUnicast(kind, source, flags, destination, seqnum) == AvrRegisters(id)
      && EcanUnicast(kind, source, flags, destination, seqnum) == EcanRegisters(id)
      && id < 0x2000_0000
  {
  }

  lemma BroadcastSent(kind: word, source: word, group: word)
    requires 16 <= kind < 32 && source < 256 && group < 0x1_0000
    ensures var id := BroadcastId(kind, source, group);
      && AvrBroadcast(kind, source, group) == AvrRegisters(id)
      && EcanBroadcast(kind, source, group) == EcanRegisters(id)
      && id < 0x2000_0000
  {
  }

  /** The registers both families write for a frame are those of its identifier. */
  lemma FamiliesSendId(h: Header)
    requires h.Fits()
    ensures AvrEncode(h) == AvrRegisters(Id(h)) && EcanEncode(h) == EcanRegisters(Id(h)) && Id(h) < 0x2000_0000
  {
    hide Low, UnicastId, BroadcastId, AvrUnicast, AvrBroadcast, EcanUnicast, EcanBroadcast, AvrRegisters, EcanRegisters;
    match h
    case Unicast(kind, source, flags, destination, seqnum) =>
      UnicastSent(kind, source, flags, destination, seqnum);
    case Broadcast(kind, source, group) =>
      BroadcastSent(kind, source, group);
  }

  lemma CanfdSendsId(id: word, exide: word)
    requires id < 0x2000_0000 && exide < 256 && exide & 0x1f == 0
    ensures CanfdTransmit(EcanRegisters(id), exide) == CanfdObject(id)
    ensures CanfdReceive(CanfdEncode(EcanRegisters(id), exide)) == EcanRegisters(id)
  {
  }

  lemma UnicastReceived(kind: word, source: word, flags: word, destination: word, seqnum: word)
    requires kind < 16 && source < 256 && flags < 8 && destination < 256 && seqnum < 32
    ensures var id := UnicastId(kind, source, flags, destination, seqnum);
      && AvrDecode(AvrRegisters(id)) == Unicast(kind, source, flags, destination, seqnum)
      && EcanDecode(EcanRegisters(id)) == Unicast(kind, source, flags, destination, seqnum)
  {
  }

  lemma BroadcastReceived(kind: word, source: word, group: word)
    requires 16 <= kind < 32 && source < 256 && group < 0x1_0000
    ensures var id := BroadcastId(kind, source, group);
      && AvrDecode(AvrRegisters(id)) == Broadcast(kind, source, group)
      && EcanDecode(EcanRegisters(id)) == Broadcast(kind, source, group)
  {
  }

  /** Both families read the header back from the registers in which an identifier arrives. */
  lemma FamiliesReceive(h: Header)
    requires h.Fits()
    ensures AvrDecode(AvrRegisters(Id(h))) == h && EcanDecode(EcanRegisters(Id(h))) == h
  {
    hide Low, UnicastId, BroadcastId, AvrDecode, EcanDecode, AvrRegisters, EcanRegisters;
    match h
    case Unicast(kind, source, flags, destination, seqnum) =>
      UnicastReceived(kind, source, flags, destination, seqnum);
    case Broadcast(kind, source, group) =>
      BroadcastReceived(kind, source, group);
  }

  lemma CanfdReceivesId(id: word)
    requires id < 0x2000_0000
    ensures CanfdReceive(CanfdObject(id)) == EcanRegisters(id)
  {
  }

  /**
   A frame sent by any family is received by any family with the same header, also through
   the message objects of the PIC18F-Q84; different headers have different identifiers.
   */
  lemma FamiliesInteroperate(h: Header, g: Header, exide: word)
    requires h.Fits() && g.Fits() && exide < 256 && exide & 0x1f == 0
    ensures AvrEncode(h) == AvrRegisters(Id(h)) && EcanEncode(h) == EcanRegisters(Id(h))
    ensures CanfdTransmit(EcanEncode(h), exide) == CanfdObject(Id(h))
    ensures AvrDecode(AvrRegisters(Id(h))) == h && EcanDecode(EcanRegisters(Id(h))) == h
    ensures EcanDecode(CanfdReceive(CanfdObject(Id(h)))) == h
    ensures CanfdReceive(CanfdEncode(EcanEncode(h), exide)) == EcanEncode(h)
    ensures Id(h) == Id(g) <==> h == g
  {
    hide *;
    FamiliesSendId(h);
    CanfdSendsId(Id(h), exide);
    CanfdReceivesId(Id(h));
    FamiliesReceive(h);
    FamiliesReceive(g);
  }
}
