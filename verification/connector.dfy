/** Equality and ordering of Bluetooth connectors (IceBT::ConnectorI), used
    to recognise the same connection target and to keep connectors in
    ordered containers: two connectors are compared by address, then
    service UUID, then timeout, then connection id. */
module BluetoothConnectors {
  import Text

  // ---------------------------------------------------------------------
  // Addresses
  // ---------------------------------------------------------------------

  /** An RFCOMM socket address: the device address bytes and the channel. */
  datatype Address = Address(bdaddr: seq<int>, channel: int)

  /** Three-way comparison of byte strings, byte by byte; a proper prefix
      comes first. */
  function CompareBytes(a: seq<int>, b: seq<int>): (r: int)
    ensures -1 <= r <= 1
    decreases |a|
  {
    if a == [] && b == [] then 0
    else if a == [] then -1
    else if b == [] then 1
    else if a[0] < b[0] then -1
    else if a[0] > b[0] then 1
    else CompareBytes(a[1..], b[1..])
  }

  lemma {:induction false} CompareBytesZero(a: seq<int>, b: seq<int>)
    ensures CompareBytes(a, b) == 0 <==> a == b
    decreases |a|
  {
    if a != [] && b != [] && a[0] == b[0] {
      CompareBytesZero(a[1..], b[1..]);
      if a[1..] == b[1..] {
        assert a == [a[0]] + a[1..] && b == [b[0]] + b[1..];
      }
    }
  }

  lemma {:induction false} CompareBytesAntisymmetric(a: seq<int>, b: seq<int>)
    ensures CompareBytes(b, a) == -CompareBytes(a, b)
    decreases |a|
  {
    if a != [] && b != [] && a[0] == b[0] {
      CompareBytesAntisymmetric(a[1..], b[1..]);
    }
  }

  lemma {:induction false} CompareBytesTransitive(a: seq<int>, b: seq<int>, c: seq<int>)
    requires CompareBytes(a, b) < 0 && CompareBytes(b, c) < 0
    ensures CompareBytes(a, c) < 0
    decreases |a|
  {
    if a != [] && b != [] && c != [] && a[0] == b[0] && b[0] == c[0] {
      CompareBytesTransitive(a[1..], b[1..], c[1..]);
    }
  }

  /** A stand-in for compareAddress, whose definition is not part of this
      model: the device address bytes, then the channel; negative, zero or
      positive. What the connectors rely on is only that it is a total
      order (CompareAddressOrder). */
  function CompareAddress(a: Address, b: Address): (r: int)
    ensures -1 <= r <= 1
  {
    var rc := CompareBytes(a.bdaddr, b.bdaddr);
    if rc != 0 then rc
    else if a.channel < b.channel then -1
    else if a.channel > b.channel then 1
    else 0
  }

  /** compareAddress is a total order on addresses: zero exactly for equal
      addresses, the sign flips with the arguments, and negative results
      chain. */
  lemma CompareAddressOrder(a: Address, b: Address, c: Address)
    ensures CompareAddress(a, b) == 0 <==> a == b
    ensures CompareAddress(b, a) == -CompareAddress(a, b)
    ensures CompareAddress(a, b) < 0 && CompareAddress(b, c) < 0 ==> CompareAddress(a, c) < 0
  {
    CompareBytesZero(a.bdaddr, b.bdaddr);
    CompareBytesZero(b.bdaddr, c.bdaddr);
    CompareBytesZero(a.bdaddr, c.bdaddr);
    CompareBytesAntisymmetric(a.bdaddr, b.bdaddr);
    if CompareBytes(a.bdaddr, b.bdaddr) < 0 && CompareBytes(b.bdaddr, c.bdaddr) < 0 {
      CompareBytesTransitive(a.bdaddr, b.bdaddr, c.bdaddr);
    }
  }

  // ---------------------------------------------------------------------
  // Connectors
  // ---------------------------------------------------------------------

  /** A Bluetooth connector: the endpoint type of its plug-in instance, the
      address, the service UUID, the timeout and the connection id. */
  datatype ConnectorI = ConnectorI(endpointType: int, addr: Address, uuid: string, timeout: int, connectionId: string)

  /** The connector compared against: a Bluetooth connector, or a connector
      of another transport, known only by its endpoint type. */
  datatype Connector = Bluetooth(c: ConnectorI) | OtherTransport(endpointType: int)

  /** operator==: only against a Bluetooth connector, and then field by
      field; the endpoint type is not compared. */
  function Equal(self: ConnectorI, r: Connector): bool
  {
    if !r.Bluetooth? then false
    else if CompareAddress(self.addr, r.c.addr) != 0 then false
    else if self.uuid != r.c.uuid then false
    else if self.timeout != r.c.timeout then false
    else if self.connectionId != r.c.connectionId then false
    else true
  }

  /** operator<: against another transport, by endpoint type; against a
      Bluetooth connector, by address, then UUID, then timeout, then
      connection id. */
  function Less(self: ConnectorI, r: Connector): bool
  {
    if !r.Bluetooth? then self.endpointType < r.endpointType
    else
      var p := r.c;
      var rc := CompareAddress(self.addr, p.addr);
      if rc < 0 then true
      else if rc > 0 then false
      else if Text.Less(self.uuid, p.uuid) then true
      else if Text.Less(p.uuid, self.uuid) then false
      else if self.timeout < p.timeout then true
      else if p.timeout < self.timeout then false
      else Text.Less(self.connectionId, p.connectionId)
  }

  /** Equality holds exactly for a Bluetooth connector with the same
      address, UUID, timeout and connection id. */
  lemma EqualIff(a: ConnectorI, r: Connector)
    ensures Equal(a, r) <==>
      (r.Bluetooth? && r.c.addr == a.addr && r.c.uuid == a.uuid
       && r.c.timeout == a.timeout && r.c.connectionId == a.connectionId)
  {
    if r.Bluetooth? {
      CompareAddressOrder(a.addr, r.c.addr, r.c.addr);
    }
  }

  /** The order on the four fields, the first that differs deciding. */
  predicate LexLess(a: ConnectorI, b: ConnectorI)
  {
    CompareAddress(a.addr, b.addr) < 0
    || (a.addr == b.addr && Text.Less(a.uuid, b.uuid))
    || (a.addr == b.addr && a.uuid == b.uuid && a.timeout < b.timeout)
    || (a.addr == b.addr && a.uuid == b.uuid && a.timeout == b.timeout && Text.Less(a.connectionId, b.connectionId))
  }

  /** operator< against a Bluetooth connector is the lexicographic order on
      (address, UUID, timeout, connection id). */
  lemma LessIsLexicographic(a: ConnectorI, b: ConnectorI)
    ensures Less(a, Bluetooth(b)) <==> LexLess(a, b)
  {
    CompareAddressOrder(a.addr, b.addr, b.addr);
    if Text.Less(a.uuid, b.uuid) {
      Text.LessIrreflexive(a.uuid);
    }
    Text.LessTotal(a.uuid, b.uuid);
    if Text.Less(a.uuid, b.uuid) {
      Text.LessAsymmetric(a.uuid, b.uuid);
    }
  }

  /** No connector is less than itself. */
  lemma LessIrreflexive(a: ConnectorI)
    ensures !Less(a, Bluetooth(a))
  {
    CompareAddressOrder(a.addr, a.addr, a.addr);
    Text.LessIrreflexive(a.uuid);
    Text.LessIrreflexive(a.connectionId);
  }

  /** Equal connectors are not ordered either way. */
  lemma EqualNotLess(a: ConnectorI, b: ConnectorI)
    requires Equal(a, Bluetooth(b))
    ensures !Less(a, Bluetooth(b)) && !Less(b, Bluetooth(a))
  {
    EqualIff(a, Bluetooth(b));
    LessIrreflexive(a);
    CompareAddressOrder(a.addr, b.addr, b.addr);
    Text.LessIrreflexive(a.uuid);
    Text.LessIrreflexive(a.connectionId);
  }

  /** Of two Bluetooth connectors, exactly one is less, or they are equal. */
  lemma Trichotomy(a: ConnectorI, b: ConnectorI)
    ensures Equal(a, Bluetooth(b)) || Less(a, Bluetooth(b)) || Less(b, Bluetooth(a))
    ensures !(Less(a, Bluetooth(b)) && Less(b, Bluetooth(a)))
  {
    CompareAddressOrder(a.addr, b.addr, b.addr);
    Text.LessTotal(a.uuid, b.uuid);
    Text.LessTotal(a.connectionId, b.connectionId);
    if Text.Less(a.uuid, b.uuid) {
      Text.LessAsymmetric(a.uuid, b.uuid);
    }
    if Text.Less(a.connectionId, b.connectionId) {
      Text.LessAsymmetric(a.connectionId, b.connectionId);
    }
    EqualIff(a, Bluetooth(b));
  }

  /** The order chains. */
  lemma LessTransitive(a: ConnectorI, b: ConnectorI, c: ConnectorI)
    requires Less(a, Bluetooth(b)) && Less(b, Bluetooth(c))
    ensures Less(a, Bluetooth(c))
  {
    LessIsLexicographic(a, b);
    LessIsLexicographic(b, c);
    LessIsLexicographic(a, c);
    CompareAddressOrder(a.addr, b.addr, c.addr);
    CompareAddressOrder(a.addr, c.addr, c.addr);
    if a.addr == b.addr && b.addr == c.addr {
      if Text.Less(a.uuid, b.uuid) && Text.Less(b.uuid, c.uuid) {
        Text.LessTransitive(a.uuid, b.uuid, c.uuid);
      }
      if a.uuid == b.uuid && b.uuid == c.uuid && a.timeout == b.timeout && b.timeout == c.timeout {
        if Text.Less(a.connectionId, b.connectionId) && Text.Less(b.connectionId, c.connectionId) {
          Text.LessTransitive(a.connectionId, b.connectionId, c.connectionId);
        }
      }
    }
  }

  /** Against another transport only the endpoint types count. */
  lemma OtherTransportByType(a: ConnectorI, t: int)
    ensures !Equal(a, OtherTransport(t))
    ensures Less(a, OtherTransport(t)) <==> a.endpointType < t
  {
  }
}
