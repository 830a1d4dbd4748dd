/** The port registry of tecancavro/transport.py: the class-level dictionary
    `ser_mapping` that lets several pump devices share one open serial port.
    Each entry maps a port name to the serial parameters it was opened with
    (`info`), the one open handle (`_ser`) and the ordered list of ids of the
    devices using it (`_devices`). */
module Registry {
  import opened Wrappers

  /** A serial read timeout: a float in the source that is only compared for equality. */
  type Timeout(==)

  /** A device id: a uuid4 string (TecanAPISerial) or 32 random bits (TecanAPIMicro). */
  type DeviceId(==)

  /** The `ser_info` dictionary of a device. */
  datatype SerInfo = SerInfo(baud: int, timeout: Timeout, maxAttempts: int)

  /** An open serial handle. Handles are told apart by the order in which the
      registry opened them; the port and settings are those it was opened with. */
  datatype Handle = Handle(serialNo: nat, port: string, baud: int, timeout: Timeout)

  /** One value of `ser_mapping`: a port in use, or the dictionary left behind
      when opening the port raised after `info` was written, which holds
      neither `_ser` nor `_devices`. */
  datatype Entry =
    | Active(info: SerInfo, ser: Handle, devices: seq<DeviceId>)
    | Stranded(info: SerInfo)

  type Table = map<string, Entry>

  /** The ids an entry lists under `_devices`; a stranded entry lists none. */
  function Listed(e: Entry): seq<DeviceId>
  {
    if e.Active? then e.devices else []
  }

  /** What a device instance carries into `_registerSer` and `__del__`. */
  datatype Device = Device(id: DeviceId, port: string, info: SerInfo)

  /** What `_registerSer` raises: a conflict of parameters, the exception of a
      port that fails to open, or the KeyError of `reg[port]['_devices']` on a
      stranded entry. */
  datatype RegisterError = Conflict(port: string) | OpenFailed(port: string) | NoDeviceList(port: string)

  /** The two exceptions `__del__` lets escape: the port lookup outside the `try`,
      and `list.index` on a missing id, which `except KeyError` does not catch. */
  datatype DeregisterError = KeyError | ValueError

  /** The number of items `set(a.items()) & set(b.items())` holds: both
      dictionaries have the same three keys, so an item is shared exactly when
      the two values under its key are equal. */
  function SharedItems(a: SerInfo, b: SerInfo): (n: nat)
    ensures n <= 3
    ensures n == 3 <==> a == b
  {
    (if a.baud == b.baud then 1 else 0)
    + (if a.timeout == b.timeout then 1 else 0)
    + (if a.maxAttempts == b.maxAttempts then 1 else 0)
  }

  /** The handle opened for a device on a port nobody has registered yet. */
  function Open(dev: Device, serialNo: nat): Handle
  {
    Handle(serialNo, dev.port, dev.info.baud, dev.info.timeout)
  }

  /** An entry for port `p` that is in use lists some device and holds the
      handle opened for `p` with the entry's own settings. */
  ghost predicate BoundTo(p: string, e: Entry)
  {
    e.Active? ==>
      && e.devices != []
      && e.ser.port == p
      && e.ser.baud == e.info.baud
      && e.ser.timeout == e.info.timeout
  }

  /** A table whose every entry is bound to its own port. */
  ghost predicate WellFormed(table: Table)
  {
    forall p :: p in table ==> BoundTo(p, table[p])
  }

  /** No entry is stranded. */
  ghost predicate Settled(table: Table)
  {
    forall p :: p in table ==> table[p].Active?
  }

  ghost predicate NoDuplicates(s: seq<DeviceId>)
  {
    forall i, j :: 0 <= i < j < |s| ==> s[i] != s[j]
  }

  /** No id is listed twice, on one port or on two. */
  ghost predicate IdsDistinct(table: Table)
  {
    && (forall p :: p in table ==> NoDuplicates(Listed(table[p])))
    && (forall p, q, x :: p in table && q in table && p != q && x in Listed(table[p]) ==> x !in Listed(table[q]))
  }

  ghost predicate Unregistered(table: Table, id: DeviceId)
  {
    forall p :: p in table ==> id !in Listed(table[p])
  }

  /** The outcome of `_registerSer`: what it returns (the device's `_ser`, or
      the exception it raises) and the registry afterwards. */
  datatype Registration = Registration(result: Result<Handle, RegisterError>, table: Table)

  /** `_registerSer`, given the serial number the handle would get if the port
      is new and whether opening it (`serial.Serial(...)`, or `UART(...)` and
      `init` on a microcontroller) succeeds. The entry and its `info` are
      written before the port is opened. */
  function Register(table: Table, dev: Device, serialNo: nat, opens: bool): (o: Registration)
    ensures dev.port !in table && opens ==>
      && o.result == Ok(Open(dev, serialNo))
      && o.table == table[dev.port := Active(dev.info, Open(dev, serialNo), [dev.id])]
    ensures dev.port !in table && !opens ==>
      o == Registration(Err(OpenFailed(dev.port)), table[dev.port := Stranded(dev.info)])
    ensures dev.port in table ==>
      (o.result.Ok? <==> table[dev.port].info == dev.info && table[dev.port].Active?)
    ensures dev.port in table && table[dev.port].info != dev.info ==>
      o == Registration(Err(Conflict(dev.port)), table)
    ensures dev.port in table && table[dev.port].info == dev.info && table[dev.port].Stranded? ==>
      o == Registration(Err(NoDeviceList(dev.port)), table)
    ensures dev.port in table && o.result.Ok? ==>
      && dev.port in o.table && o.table[dev.port].Active?
      && o.table[dev.port].info == table[dev.port].info
      && o.table[dev.port].ser == table[dev.port].ser
      && o.table[dev.port].devices == table[dev.port].devices + [dev.id]
      && o.table == table[dev.port := o.table[dev.port]]
    ensures o.result.Ok? ==> dev.port in o.table && o.table[dev.port].Active? && o.result.value == o.table[dev.port].ser
  {
    var port := dev.port;
    if port !in table then
      if opens then
        var h := Open(dev, serialNo);
        Registration(Ok(h), table[port := Active(dev.info, h, [dev.id])])
      else
        Registration(Err(OpenFailed(port)), table[port := Stranded(dev.info)])
    else if SharedItems(dev.info, table[port].info) != 3 then
      Registration(Err(Conflict(port)), table)
    else
      match table[port]
      case Stranded(_) => Registration(Err(NoDeviceList(port)), table)
      case Active(info, ser, devices) => Registration(Ok(ser), table[port := Active(info, ser, devices + [dev.id])])
  }

  /** `list.index`: the position of the first occurrence of `x`. */
  function IndexOf(s: seq<DeviceId>, x: DeviceId): (i: nat)
    requires x in s
    ensures i < |s| && s[i] == x && x !in s[..i]
  {
    if s[0] == x then 0 else 1 + IndexOf(s[1..], x)
  }

  /** The device list after `del dev_list[dev_list.index(id)]`. */
  function RemoveFirst(s: seq<DeviceId>, x: DeviceId): seq<DeviceId>
    requires x in s
  {
    var i := IndexOf(s, x);
    s[..i] + s[i + 1..]
  }

  /** The outcome of `__del__`: the exception it lets escape, if any, the
      registry afterwards, and the handle it closes, if any. */
  datatype Deregistration = Deregistration(result: Result<(), DeregisterError>, table: Table, closing: Option<Handle>)

  /** `__del__`: remove the first occurrence of the device's id from its
      port's list; close the handle and drop the entry once the list is empty.
      On a stranded entry `port_reg['_devices']` raises the KeyError that
      `except KeyError` swallows, so nothing changes. */
  function Deregister(table: Table, dev: Device): (o: Deregistration)
    ensures dev.port !in table ==> o == Deregistration(Err(KeyError), table, None)
    ensures dev.port in table && table[dev.port].Stranded? ==> o == Deregistration(Ok(()), table, None)
    ensures dev.port in table && table[dev.port].Active? && dev.id !in table[dev.port].devices ==>
      o == Deregistration(Err(ValueError), table, None)
    ensures dev.port in table && table[dev.port].Active? && dev.id in table[dev.port].devices ==>
      var e := table[dev.port];
      var rest := RemoveFirst(e.devices, dev.id);
      && o.result.Ok?
      && multiset(rest) == multiset(e.devices) - multiset{dev.id}
      && (rest == [] ==> o.table == table - {dev.port} && o.closing == Some(e.ser))
      && (rest != [] ==> o.table == table[dev.port := e.(devices := rest)] && o.closing == None)
  {
    var port := dev.port;
    if port !in table then
      Deregistration(Err(KeyError), table, None)
    else
      var portReg := table[port];
      if portReg.Stranded? then
        Deregistration(Ok(()), table, None)
      else
        var devList := portReg.devices;
        if dev.id !in devList then
          Deregistration(Err(ValueError), table, None)
        else
          var ind := IndexOf(devList, dev.id);
          assert devList == devList[..ind] + [devList[ind]] + devList[ind + 1..];
          var rest := devList[..ind] + devList[ind + 1..];
          if |rest| == 0 then
            Deregistration(Ok(()), table - {port}, Some(portReg.ser))
          else
            Deregistration(Ok(()), table[port := portReg.(devices := rest)], None)
  }

  /** Registration keeps every port in use listing some device and bound to its own handle. */
  lemma RegisterPreservesWellFormed(table: Table, dev: Device, serialNo: nat, opens: bool)
    requires WellFormed(table)
    ensures WellFormed(Register(table, dev, serialNo, opens).table)
  {
  }

  /** Deregistration keeps every port in use listing some device and bound to its own handle. */
  lemma DeregisterPreservesWellFormed(table: Table, dev: Device)
    requires WellFormed(table)
    ensures WellFormed(Deregister(table, dev).table)
  {
    if dev.port in table && table[dev.port].Active? && dev.id in table[dev.port].devices {
      var e := table[dev.port];
      var rest := RemoveFirst(e.devices, dev.id);
      DeregisterListed(table, dev, rest);
      assert BoundTo(dev.port, e);
      if rest != [] {
        assert BoundTo(dev.port, e.(devices := rest));
      }
    }
  }

  /** Registering a fresh id keeps all ids distinct. */
  lemma RegisterKeepsIdsDistinct(table: Table, dev: Device, serialNo: nat, opens: bool)
    requires IdsDistinct(table) && Unregistered(table, dev.id)
    ensures IdsDistinct(Register(table, dev, serialNo, opens).table)
  {
    var o := Register(table, dev, serialNo, opens);
    if o.result.Ok? && dev.port in table {
      var s := table[dev.port].devices;
      assert Listed(o.table[dev.port]) == s + [dev.id];
      forall i, j | 0 <= i < j < |s + [dev.id]|
        ensures (s + [dev.id])[i] != (s + [dev.id])[j]
      {
        if j == |s| {
          assert s[i] in Listed(table[dev.port]);
        }
      }
    }
  }

  lemma {:induction false} RemoveFirstSubset(s: seq<DeviceId>, x: DeviceId, y: DeviceId)
    requires x in s && y in RemoveFirst(s, x)
    ensures y in s
  {
    var i := IndexOf(s, x);
    var r := RemoveFirst(s, x);
    var k :| 0 <= k < |r| && r[k] == y;
    if k < i {
      assert s[k] == y;
    } else {
      assert s[k + 1] == y;
    }
  }

  lemma {:induction false} RemoveFirstNoDuplicates(s: seq<DeviceId>, x: DeviceId)
    requires x in s && NoDuplicates(s)
    ensures NoDuplicates(RemoveFirst(s, x)) && x !in RemoveFirst(s, x)
  {
    var i := IndexOf(s, x);
    var r := RemoveFirst(s, x);
    assert forall k :: 0 <= k < |r| ==> r[k] == (if k < i then s[k] else s[k + 1]);
    forall k | 0 <= k < |r|
      ensures r[k] != x
    {
      assert s[if k < i then k else k + 1] != s[i];
    }
  }

  /** Narrowing one port's list to a duplicate-free part of it, or dropping
      the port, and leaving every other entry as it was keeps ids distinct. */
  lemma NarrowKeepsIdsDistinct(table: Table, t2: Table, port: string, r: seq<DeviceId>)
    requires IdsDistinct(table) && port in table
    requires forall p :: p in t2 && p != port ==> p in table && t2[p] == table[p]
    requires port in t2 ==> Listed(t2[port]) == r
    requires NoDuplicates(r) && forall x :: x in r ==> x in Listed(table[port])
    ensures IdsDistinct(t2)
  {
    forall p, q, x | p in t2 && q in t2 && p != q && x in Listed(t2[p])
      ensures x !in Listed(t2[q])
    {
      assert p in table && q in table;
    }
  }

  /** Deregistering keeps all ids distinct, and with distinct ids the device's
      id is then listed nowhere. */
  lemma DeregisterRemovesId(table: Table, dev: Device)
    requires IdsDistinct(table)
    requires dev.port in table && dev.id in Listed(table[dev.port])
    ensures IdsDistinct(Deregister(table, dev).table)
    ensures Unregistered(Deregister(table, dev).table, dev.id)
  {
    var o := Deregister(table, dev);
    var s := table[dev.port].devices;
    var r := RemoveFirst(s, dev.id);
    RemoveFirstNoDuplicates(s, dev.id);
    forall x | x in r
      ensures x in Listed(table[dev.port])
    {
      RemoveFirstSubset(s, dev.id, x);
    }
    DeregisterListed(table, dev, r);
    NarrowKeepsIdsDistinct(table, o.table, dev.port, r);
    forall p | p in o.table
      ensures dev.id !in Listed(o.table[p])
    {
      if p != dev.port {
        assert o.table[p] == table[p];
      }
    }
  }

  /** Two devices with equal parameters share one port and one handle; a
      third with other parameters is refused and changes nothing. */
  lemma SharedPortScenario(table: Table, a: Device, b: Device, c: Device, n: nat, opens: bool)
    requires a.port !in table && b.port == a.port && c.port == a.port
    requires b.info == a.info && c.info != a.info
    ensures
      var ra := Register(table, a, n, true);
      var rb := Register(ra.table, b, n + 1, opens);
      var rc := Register(rb.table, c, n + 1, opens);
      && ra.result.Ok? && rb.result.Ok? && ra.result.value == rb.result.value
      && rb.table[a.port].devices == [a.id, b.id]
      && rc.result == Err(Conflict(a.port)) && rc.table == rb.table
  {
  }

  /** Three devices on one port: removing two leaves the handle open, removing
      the third closes it and drops the entry. */
  lemma ReferenceCountedTeardown(table: Table, a: Device, b: Device, c: Device, n: nat)
    requires a.port !in table && b.port == a.port && c.port == a.port
    requires b.info == a.info && c.info == a.info
    ensures
      var t1 := Register(Register(Register(table, a, n, true).table, b, n + 1, true).table, c, n + 1, true).table;
      var d1 := Deregister(t1, a);
      var d2 := Deregister(d1.table, b);
      var d3 := Deregister(d2.table, c);
      && d1.result.Ok? && d1.closing == None
      && d2.result.Ok? && d2.closing == None && a.port in d2.table
      && d2.table[a.port].Active? && d2.table[a.port].ser == Open(a, n)
      && d3.result.Ok? && d3.closing == Some(Open(a, n)) && d3.table == table
  {
    RegisterThree(table, a, b, c, n);
    TeardownThree(table, Active(a.info, Open(a, n), [a.id, b.id, c.id]), a, b, c);
  }

  /** Removing the three members of a port one by one, front first. */
  lemma TeardownThree(table: Table, e: Entry, a: Device, b: Device, c: Device)
    requires a.port !in table && b.port == a.port && c.port == a.port
    requires e.Active? && e.devices == [a.id, b.id, c.id]
    ensures
      var d1 := Deregister(table[a.port := e], a);
      var d2 := Deregister(d1.table, b);
      var d3 := Deregister(d2.table, c);
      && d1.result.Ok? && d1.closing == None
      && d2.result.Ok? && d2.closing == None && a.port in d2.table
      && d2.table[a.port].Active? && d2.table[a.port].ser == e.ser
      && d3.result.Ok? && d3.closing == Some(e.ser) && d3.table == table
  {
    assert [a.id, b.id, c.id] == [a.id] + [b.id, c.id];
    assert [b.id, c.id] == [b.id] + [c.id];
    assert [c.id] == [c.id] + [];
    DeregisterFront(table, e, a, [b.id, c.id]);
    var d1 := Deregister(table[a.port := e], a);
    assert d1.table == table[b.port := e.(devices := [b.id, c.id])];
    DeregisterFront(table, e.(devices := [b.id, c.id]), b, [c.id]);
    var d2 := Deregister(d1.table, b);
    assert d2.table == table[c.port := e.(devices := [c.id])];
    DeregisterFront(table, e.(devices := [c.id]), c, []);
  }

  /** Three devices with equal parameters registered one after another on a new
      port whose open succeeds; the later two open nothing. */
  lemma RegisterThree(table: Table, a: Device, b: Device, c: Device, n: nat)
    requires a.port !in table && b.port == a.port && c.port == a.port
    requires b.info == a.info && c.info == a.info
    ensures Register(Register(Register(table, a, n, true).table, b, n + 1, true).table, c, n + 1, true).table
         == table[a.port := Active(a.info, Open(a, n), [a.id, b.id, c.id])]
  {
    var e := Active(a.info, Open(a, n), [a.id, b.id, c.id]);
    var t0 := Register(table, a, n, true).table;
    assert t0 == table[a.port := e.(devices := [a.id])];
    var t01 := Register(t0, b, n + 1, true).table;
    assert [a.id] + [b.id] == [a.id, b.id];
    assert t01 == table[a.port := e.(devices := [a.id, b.id])];
    assert [a.id, b.id] + [c.id] == [a.id, b.id, c.id];
  }

  /** Deregistering the device at the front of its port's list. */
  lemma DeregisterFront(base: Table, e: Entry, dev: Device, rest: seq<DeviceId>)
    requires dev.port !in base && e.Active? && e.devices == [dev.id] + rest
    ensures rest == [] ==> Deregister(base[dev.port := e], dev) == Deregistration(Ok(()), base, Some(e.ser))
    ensures rest != [] ==>
      Deregister(base[dev.port := e], dev) == Deregistration(Ok(()), base[dev.port := e.(devices := rest)], None)
  {
    RemoveFront(e.devices, dev.id, rest);
    DeregisterListed(base[dev.port := e], dev, rest);
    if rest == [] {
      UpdateThenRemove(base, dev.port, e);
    } else {
      UpdateTwice(base, dev.port, e, e.(devices := rest));
    }
  }

  lemma UpdateThenRemove(base: Table, k: string, e: Entry)
    requires k !in base
    ensures base[k := e] - {k} == base
  {
  }

  lemma UpdateTwice(base: Table, k: string, e: Entry, e2: Entry)
    ensures base[k := e][k := e2] == base[k := e2]
  {
  }

  /** Deregistering a listed device whose removal leaves `rest`. */
  lemma DeregisterListed(t: Table, dev: Device, rest: seq<DeviceId>)
    requires dev.port in t && t[dev.port].Active? && dev.id in t[dev.port].devices
    requires RemoveFirst(t[dev.port].devices, dev.id) == rest
    ensures rest == [] ==> Deregister(t, dev) == Deregistration(Ok(()), t - {dev.port}, Some(t[dev.port].ser))
    ensures rest != [] ==>
      Deregister(t, dev) == Deregistration(Ok(()), t[dev.port := t[dev.port].(devices := rest)], None)
    ensures forall p :: p in Deregister(t, dev).table && p != dev.port ==> p in t && Deregister(t, dev).table[p] == t[p]
  {
  }

  lemma RemoveFront(s: seq<DeviceId>, x: DeviceId, rest: seq<DeviceId>)
    requires s == [x] + rest
    ensures x in s && RemoveFirst(s, x) == rest
  {
    assert s[0] == x;
    assert IndexOf(s, x) == 0;
    assert s[..0] + s[1..] == rest;
  }

  /** A stranded entry stays as it is for good: every later registration on its
      port raises (a conflict, or the KeyError of the missing `_devices`) and
      leaves the table unchanged, and no `__del__` removes it. */
  lemma StrandedIsPermanent(table: Table, port: string, dev: Device, serialNo: nat, opens: bool)
    requires port in table && table[port].Stranded?
    ensures dev.port == port ==>
      var r := Register(table, dev, serialNo, opens);
      r.result.Err? && r.result.error != OpenFailed(port) && r.table == table
    ensures var o := Deregister(table, dev); port in o.table && o.table[port] == table[port]
  {
  }

  /** As written, a port whose open fails once can never be registered again:
      the failed device's own `__del__` leaves the stranded entry, and a second
      device with the same settings gets KeyError even though its open would succeed. */
  lemma FailedOpenStrandsPort(table: Table, a: Device, b: Device, n: nat)
    requires a.port !in table && b.port == a.port && b.info == a.info
    ensures
      var r1 := Register(table, a, n, false);
      var d := Deregister(r1.table, a);
      var r2 := Register(d.table, b, n, true);
      && r1.result == Err(OpenFailed(a.port))
      && d == Deregistration(Ok(()), r1.table, None)
      && r2.result == Err(NoDeviceList(a.port)) && r2.table == r1.table
  {
  }

  /** `_registerSer` with the entry written only once the port has opened: a
      failed open raises and leaves the table as it was. */
  function RegisterAtomic(table: Table, dev: Device, serialNo: nat, opens: bool): (o: Registration)
    ensures dev.port !in table && !opens ==> o == Registration(Err(OpenFailed(dev.port)), table)
    ensures dev.port in table || opens ==> o == Register(table, dev, serialNo, opens)
  {
    if dev.port !in table && !opens then Registration(Err(OpenFailed(dev.port)), table)
    else Register(table, dev, serialNo, opens)
  }

  /** With the atomic write no entry is ever stranded. */
  lemma AtomicRegisterKeepsSettled(table: Table, dev: Device, serialNo: nat, opens: bool)
    requires Settled(table)
    ensures Settled(RegisterAtomic(table, dev, serialNo, opens).table)
  {
  }

  /** Deregistration never strands an entry. */
  lemma DeregisterKeepsSettled(table: Table, dev: Device)
    requires Settled(table)
    ensures Settled(Deregister(table, dev).table)
  {
    if dev.port in table && dev.id in table[dev.port].devices {
      DeregisterListed(table, dev, RemoveFirst(table[dev.port].devices, dev.id));
    }
  }

  /** With the atomic write a failed open can be retried: a second device with
      the same settings opens the port once it becomes available. */
  lemma AtomicFailedOpenCanRetry(table: Table, a: Device, b: Device, n: nat)
    requires a.port !in table && b.port == a.port && b.info == a.info
    ensures
      var r1 := RegisterAtomic(table, a, n, false);
      var d := Deregister(r1.table, a);
      var r2 := RegisterAtomic(d.table, b, n, true);
      && r1.result == Err(OpenFailed(a.port)) && r1.table == table
      && d == Deregistration(Err(KeyError), table, None)
      && r2.result == Ok(Open(b, n))
      && r2.table == table[a.port := Active(a.info, Open(b, n), [b.id])]
  {
  }

  /** The outcome of `TecanAPIMicro.__del__`: what happens to the serial
      table it looks in, and the micro table it leaves behind. */
  datatype MicroDeregistration = MicroDeregistration(serial: Deregistration, microTable: Table)

  /** `TecanAPIMicro.__del__` as written: it looks the port up, removes the id
      and deletes the entry in `TecanAPISerial.ser_mapping`, not in the table
      the device registered in, so the micro table is never touched. */
  function MicroDeregisterAsWritten(serialTable: Table, microTable: Table, dev: Device): (r: MicroDeregistration)
    ensures r.microTable == microTable
    ensures dev.port !in serialTable ==> r.serial == Deregistration(Err(KeyError), serialTable, None)
  {
    MicroDeregistration(Deregister(serialTable, dev), microTable)
  }

  /** On a microcontroller nothing registers in `TecanAPISerial.ser_mapping`,
      so the last micro device's `__del__` raises KeyError and never releases
      its UART: after the call the micro table still holds the entry with the
      device listed and its handle open. */
  lemma MicroDeregisterLeavesPortOpen(microTable: Table, dev: Device, n: nat)
    requires dev.port !in microTable
    ensures
      var registered := Register(microTable, dev, n, true).table;
      var o := MicroDeregisterAsWritten(map[], registered, dev);
      && o.serial.result == Err(KeyError) && o.serial.closing == None
      && o.microTable == registered
      && dev.port in o.microTable && o.microTable[dev.port] == Active(dev.info, Open(dev, n), [dev.id])
  {
  }

  /** Deregistering from the table the micro device registered in releases
      the UART and returns the table to its state before registration. */
  lemma MicroDeregisterFromOwnTableCloses(microTable: Table, dev: Device, n: nat)
    requires dev.port !in microTable
    ensures
      var registered := Register(microTable, dev, n, true).table;
      var o := Deregister(registered, dev);
      && o.result.Ok? && o.closing == Some(Open(dev, n)) && o.table == microTable
  {
    var registered := Register(microTable, dev, n, true).table;
    assert IndexOf([dev.id], dev.id) == 0;
    assert registered - {dev.port} == microTable;
  }

  /** The handle log after a step that closes `closing`, if anything. */
  function LogClose(closed: seq<Handle>, closing: Option<Handle>): seq<Handle>
  {
    match closing
    case None => closed
    case Some(h) => closed + [h]
  }

  /** The number of handles opened after `_registerSer`: one more exactly when
      a new port opens. */
  function OpenedAfter(table: Table, dev: Device, openedCount: nat, opens: bool): nat
  {
    if dev.port !in table && opens then openedCount + 1 else openedCount
  }

  /** The registry's state taken together: a well-formed table whose open
      handles were opened (serial number below `openedCount`) and not yet closed,
      and a log of handles each opened before and closed only once. */
  ghost predicate Consistent(table: Table, openedCount: nat, closed: seq<Handle>)
  {
    && WellFormed(table)
    && (forall p :: p in table && table[p].Active? ==> table[p].ser.serialNo < openedCount && table[p].ser !in closed)
    && (forall i :: 0 <= i < |closed| ==> closed[i].serialNo < openedCount)
    && (forall i, j :: 0 <= i < j < |closed| ==> closed[i] != closed[j])
  }

  /** Registration opens a handle only for a new port that opens, with the next serial number. */
  lemma RegisterKeepsConsistent(table: Table, openedCount: nat, closed: seq<Handle>, dev: Device, opens: bool)
    requires Consistent(table, openedCount, closed)
    ensures Consistent(Register(table, dev, openedCount, opens).table, OpenedAfter(table, dev, openedCount, opens), closed)
  {
    RegisterPreservesWellFormed(table, dev, openedCount, opens);
  }

  /** Deregistration closes a handle that was open, so no handle is ever closed twice. */
  lemma DeregisterKeepsConsistent(table: Table, openedCount: nat, closed: seq<Handle>, dev: Device)
    requires Consistent(table, openedCount, closed)
    ensures var o := Deregister(table, dev);
      && Consistent(o.table, openedCount, LogClose(closed, o.closing))
      && (o.closing.Some? ==> o.closing.value !in closed)
  {
    var o := Deregister(table, dev);
    DeregisterPreservesWellFormed(table, dev);
    if o.closing.Some? {
      var h := o.closing.value;
      assert h == table[dev.port].ser;
      var log := closed + [h];
      forall i, j | 0 <= i < j < |log|
        ensures log[i] != log[j]
      {
        if j == |closed| {
          assert closed[i] in closed;
        }
      }
      forall p | p in o.table && o.table[p].Active?
        ensures o.table[p].ser !in log
      {
        assert p != dev.port && o.table[p] == table[p];
      }
    }
  }

  /** The shared `ser_mapping` dictionary, updated in place. `handlesOpened` counts
      the handles opened so far and `closed` logs every handle closed, in order. */
  class PortRegistry {
    var mapping: Table
    var handlesOpened: nat
    ghost var closed: seq<Handle>

    ghost predicate Valid()
      reads this
    {
      Consistent(mapping, handlesOpened, closed)
    }

    /** The empty dictionary at class definition. */
    constructor ()
      ensures Valid() && mapping == map[] && handlesOpened == 0 && closed == []
    {
      mapping := map[];
      handlesOpened := 0;
      closed := [];
    }

    /** `_registerSer`: returns the handle the device stores as `_ser`, or the
        exception it raises. `opens` says whether opening a new port succeeds. */
    method RegisterSer(dev: Device, opens: bool) returns (r: Result<Handle, RegisterError>)
      requires Valid()
      modifies this
      ensures Valid()
      ensures r == Register(old(mapping), dev, old(handlesOpened), opens).result
      ensures mapping == Register(old(mapping), dev, old(handlesOpened), opens).table
      ensures handlesOpened == OpenedAfter(old(mapping), dev, old(handlesOpened), opens)
      ensures closed == old(closed)
    {
      RegisterKeepsConsistent(mapping, handlesOpened, closed, dev, opens);
      var port := dev.port;
      if port !in mapping {
        mapping := mapping[port := Stranded(dev.info)];
        if !opens {
          r := Err(OpenFailed(port));
          return;
        }
        var h := Handle(handlesOpened, port, dev.info.baud, dev.info.timeout);
        handlesOpened := handlesOpened + 1;
        mapping := mapping[port := Active(dev.info, h, [dev.id])];
        r := Ok(h);
      } else if SharedItems(dev.info, mapping[port].info) != 3 {
        r := Err(Conflict(port));
      } else if mapping[port].Stranded? {
        r := Err(NoDeviceList(port));
      } else {
        var e := mapping[port];
        mapping := mapping[port := e.(devices := e.devices + [dev.id])];
        r := Ok(e.ser);
      }
    }

    /** `__del__`: closes the handle, exactly once, when the last device leaves. */
    method Del(dev: Device) returns (r: Result<(), DeregisterError>)
      requires Valid()
      modifies this
      ensures Valid()
      ensures r == Deregister(old(mapping), dev).result
      ensures mapping == Deregister(old(mapping), dev).table
      ensures handlesOpened == old(handlesOpened)
      ensures closed == LogClose(old(closed), Deregister(old(mapping), dev).closing)
      ensures Deregister(old(mapping), dev).closing.Some? ==> Deregister(old(mapping), dev).closing.value !in old(closed)
    {
      DeregisterKeepsConsistent(mapping, handlesOpened, closed, dev);
      ghost var o := Deregister(mapping, dev);
      if dev.port !in mapping {
        r := Err(KeyError);
        return;
      }
      var portReg := mapping[dev.port];
      if portReg.Stranded? {
        r := Ok(());
        return;
      }
      var devList := portReg.devices;
      if dev.id !in devList {
        r := Err(ValueError);
        return;
      }
      var ind := IndexOf(devList, dev.id);
      devList := devList[..ind] + devList[ind + 1..];
      assert devList == RemoveFirst(portReg.devices, dev.id);
      if |devList| == 0 {
        closed := closed + [portReg.ser];
        mapping := mapping - {dev.port};
      } else {
        mapping := mapping[dev.port := portReg.(devices := devList)];
      }
      r := Ok(());
    }
  }
}
