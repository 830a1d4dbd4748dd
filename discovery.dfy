/** Pump discovery, `findSerialPumps` of tecancavro/transport.py: every
    candidate port times every candidate address, keeping the pairs where a
    device answers both `?76` (configuration) and `&` (firmware version). */
module Discovery {
  import opened Wrappers

  /** The `['data']` of a reply. */
  type Data(==)

  /** What probing one (port, address) pair comes to: constructing the device
      and sending `?76` then `&` either yields both replies' data or raises. */
  datatype Probe = Found(config: Data, fw: Data) | TimedOut | OsError(errno: Option<int>) | OtherError

  /** A TecanAPITimeout, or an OSError whose errno is 16 (resource busy): the scan goes on. */
  predicate Skipped(p: Probe)
  {
    p.TimedOut? || (p.OsError? && p.errno == Some(16))
  }

  /** Any other failure ends the scan and escapes `findSerialPumps`. */
  predicate Propagates(p: Probe)
  {
    !p.Found? && !Skipped(p)
  }

  /** One `(port_path, config, fw_version)` tuple of the result. */
  datatype Hit = Hit(port: string, config: Data, fw: Data)

  /** The list `findSerialPumps` returns, or the failure that escapes it and
      the pair whose probe raised it. */
  datatype ScanResult = Devices(found: seq<Hit>) | Raised(port: string, addr: int, error: Probe)

  /** The outcome of each probe, by position: `probe(i, j)` is what the j-th
      address of `tecan_addrs` gives on the i-th port. A repeated address is
      probed again and may give another outcome. */
  type Prober = (nat, nat) -> Probe

  /** `h` is what the j-th address probed on the i-th port, named `port`, contributes. */
  predicate HitAt(i: nat, j: nat, port: string, probe: Prober, h: Hit)
  {
    probe(i, j).Found? && h == Hit(port, probe(i, j).config, probe(i, j).fw)
  }

  /** The inner loop, over the addresses of one port, given as a fold over a prefix. */
  function ScanRow(i: nat, port: string, addrs: seq<int>, probe: Prober): ScanResult
  {
    if addrs == [] then Devices([])
    else
      match ScanRow(i, port, addrs[..|addrs| - 1], probe)
      case Raised(p, a, e) => Raised(p, a, e)
      case Devices(f) =>
        var a := addrs[|addrs| - 1];
        var outcome := probe(i, |addrs| - 1);
        if outcome.Found? then Devices(f + [Hit(port, outcome.config, outcome.fw)])
        else if Skipped(outcome) then Devices(f)
        else Raised(port, a, outcome)
  }

  /** The outer loop, over the ports, given as a fold over a prefix. */
  function Scan(ports: seq<string>, addrs: seq<int>, probe: Prober): ScanResult
  {
    if ports == [] then Devices([])
    else
      match Scan(ports[..|ports| - 1], addrs, probe)
      case Raised(p, a, e) => Raised(p, a, e)
      case Devices(f) =>
        match ScanRow(|ports| - 1, ports[|ports| - 1], addrs, probe)
        case Raised(p, a, e) => Raised(p, a, e)
        case Devices(g) => Devices(f + g)
  }

  /** `findSerialPumps`, with the port list `listSerialPorts()` produced and
      the outcome of each probe handed in. */
  method FindSerialPumps(ports: seq<string>, addrs: seq<int>, probe: Prober)
    returns (r: ScanResult)
    ensures r == Scan(ports, addrs, probe)
  {
    var foundDevices := [];
    var i := 0;
    while i < |ports|
      invariant 0 <= i <= |ports|
      invariant Scan(ports[..i], addrs, probe) == Devices(foundDevices)
    {
      var portPath := ports[i];
      assert ports[..i + 1][..i] == ports[..i];
      ghost var before := foundDevices;
      var j := 0;
      while j < |addrs|
        invariant 0 <= j <= |addrs|
        invariant |before| <= |foundDevices| && foundDevices[..|before|] == before
        invariant ScanRow(i, portPath, addrs[..j], probe) == Devices(foundDevices[|before|..])
      {
        var addr := addrs[j];
        assert addrs[..j + 1][..j] == addrs[..j];
        var outcome := probe(i, j);
        if outcome.Found? {
          foundDevices := foundDevices + [Hit(portPath, outcome.config, outcome.fw)];
        } else if !Skipped(outcome) {
          RowRaisedSticks(i, portPath, addrs, probe, j + 1);
          assert ports[..i + 1][..i] == ports[..i];
          ScanRaisedSticks(ports, addrs, probe, i + 1);
          return Raised(portPath, addr, outcome);
        }
        j := j + 1;
      }
      assert addrs[..j] == addrs;
      assert foundDevices == before + foundDevices[|before|..];
      i := i + 1;
    }
    assert ports[..i] == ports;
    r := Devices(foundDevices);
  }

  /** Once the inner loop has raised, later addresses change nothing. */
  lemma {:induction false} RowRaisedSticks(i: nat, port: string, addrs: seq<int>, probe: Prober, j: nat)
    requires j <= |addrs| && ScanRow(i, port, addrs[..j], probe).Raised?
    ensures ScanRow(i, port, addrs, probe) == ScanRow(i, port, addrs[..j], probe)
    decreases |addrs|
  {
    if j < |addrs| {
      var init := addrs[..|addrs| - 1];
      assert init[..j] == addrs[..j];
      RowRaisedSticks(i, port, init, probe, j);
    } else {
      assert addrs[..j] == addrs;
    }
  }

  /** Once the outer loop has raised, later ports change nothing. */
  lemma {:induction false} ScanRaisedSticks(ports: seq<string>, addrs: seq<int>, probe: Prober, i: nat)
    requires i <= |ports| && Scan(ports[..i], addrs, probe).Raised?
    ensures Scan(ports, addrs, probe) == Scan(ports[..i], addrs, probe)
    decreases |ports|
  {
    if i < |ports| {
      var init := ports[..|ports| - 1];
      assert init[..i] == ports[..i];
      ScanRaisedSticks(init, addrs, probe, i);
    } else {
      assert ports[..i] == ports;
    }
  }

  lemma {:induction false} RowSucceedsIff(i: nat, port: string, addrs: seq<int>, probe: Prober)
    ensures ScanRow(i, port, addrs, probe).Devices? <==>
      forall j :: 0 <= j < |addrs| ==> !Propagates(probe(i, j))
    decreases |addrs|
  {
    if addrs != [] {
      RowSucceedsIff(i, port, addrs[..|addrs| - 1], probe);
    }
  }

  lemma {:induction false} RowHits(i: nat, port: string, addrs: seq<int>, probe: Prober, h: Hit)
    requires ScanRow(i, port, addrs, probe).Devices?
    ensures h in ScanRow(i, port, addrs, probe).found <==>
      exists j :: 0 <= j < |addrs| && HitAt(i, j, port, probe, h)
    decreases |addrs|
  {
    if addrs != [] {
      var init := addrs[..|addrs| - 1];
      var last := |addrs| - 1;
      RowHits(i, port, init, probe, h);
      if exists j :: 0 <= j < |init| && HitAt(i, j, port, probe, h) {
        var j :| 0 <= j < |init| && HitAt(i, j, port, probe, h);
        assert 0 <= j < |addrs|;
      }
      if HitAt(i, last, port, probe, h) {
        assert h == Hit(port, probe(i, last).config, probe(i, last).fw);
      }
      if h in ScanRow(i, port, addrs, probe).found && h !in ScanRow(i, port, init, probe).found {
        assert HitAt(i, last, port, probe, h);
      }
    }
  }

  lemma {:induction false} RowRaisesFirst(i: nat, port: string, addrs: seq<int>, probe: Prober)
    requires ScanRow(i, port, addrs, probe).Raised?
    ensures var r := ScanRow(i, port, addrs, probe);
      && r.port == port && Propagates(r.error)
      && exists j :: 0 <= j < |addrs| && addrs[j] == r.addr && r.error == probe(i, j)
           && forall j' :: 0 <= j' < j ==> !Propagates(probe(i, j'))
    decreases |addrs|
  {
    var init := addrs[..|addrs| - 1];
    if ScanRow(i, port, init, probe).Raised? {
      RowRaisesFirst(i, port, init, probe);
      var r := ScanRow(i, port, init, probe);
      var j :| 0 <= j < |init| && init[j] == r.addr && r.error == probe(i, j)
           && forall j' :: 0 <= j' < j ==> !Propagates(probe(i, j'));
      assert addrs[j] == r.addr;
    } else {
      RowSucceedsIff(i, port, init, probe);
      assert addrs[|addrs| - 1] == ScanRow(i, port, addrs, probe).addr;
    }
  }

  /** The scan returns a list exactly when no probe raises anything but a
      timeout or a busy port. */
  lemma {:induction false} ScanSucceedsIff(ports: seq<string>, addrs: seq<int>, probe: Prober)
    ensures Scan(ports, addrs, probe).Devices? <==>
      forall i, j :: 0 <= i < |ports| && 0 <= j < |addrs| ==> !Propagates(probe(i, j))
    decreases |ports|
  {
    if ports != [] {
      var init := ports[..|ports| - 1];
      var last := ports[|ports| - 1];
      ScanSucceedsIff(init, addrs, probe);
      RowSucceedsIff(|ports| - 1, last, addrs, probe);
    }
  }

  /** The list holds exactly the hits of the pairs where both queries succeed. */
  lemma {:induction false} ScanHits(ports: seq<string>, addrs: seq<int>, probe: Prober, h: Hit)
    requires Scan(ports, addrs, probe).Devices?
    ensures h in Scan(ports, addrs, probe).found <==>
      exists i, j :: 0 <= i < |ports| && 0 <= j < |addrs| && HitAt(i, j, ports[i], probe, h)
    decreases |ports|
  {
    if ports != [] {
      var init := ports[..|ports| - 1];
      var last := ports[|ports| - 1];
      ScanHits(init, addrs, probe, h);
      RowHits(|ports| - 1, last, addrs, probe, h);
      if exists i, j :: 0 <= i < |ports| && 0 <= j < |addrs| && HitAt(i, j, ports[i], probe, h) {
        var i, j :| 0 <= i < |ports| && 0 <= j < |addrs| && HitAt(i, j, ports[i], probe, h);
        if i < |init| {
          assert HitAt(i, j, init[i], probe, h);
        }
      }
      if exists i, j :: 0 <= i < |init| && 0 <= j < |addrs| && HitAt(i, j, init[i], probe, h) {
        var i, j :| 0 <= i < |init| && 0 <= j < |addrs| && HitAt(i, j, init[i], probe, h);
        assert HitAt(i, j, ports[i], probe, h);
      }
    }
  }

  /** A failure that escapes is that of the first raising pair in port-major,
      address-minor order. */
  lemma {:induction false} ScanRaisesFirst(ports: seq<string>, addrs: seq<int>, probe: Prober)
    requires Scan(ports, addrs, probe).Raised?
    ensures var r := Scan(ports, addrs, probe);
      && Propagates(r.error)
      && exists i, j :: 0 <= i < |ports| && 0 <= j < |addrs|
           && ports[i] == r.port && addrs[j] == r.addr && r.error == probe(i, j)
           && (forall i', j' :: 0 <= i' < i && 0 <= j' < |addrs| ==> !Propagates(probe(i', j')))
           && (forall j' :: 0 <= j' < j ==> !Propagates(probe(i, j')))
    decreases |ports|
  {
    var init := ports[..|ports| - 1];
    var last := ports[|ports| - 1];
    if Scan(init, addrs, probe).Raised? {
      ScanRaisesFirst(init, addrs, probe);
      var r := Scan(init, addrs, probe);
      var i, j :| 0 <= i < |init| && 0 <= j < |addrs|
           && init[i] == r.port && addrs[j] == r.addr && r.error == probe(i, j)
           && (forall i', j' :: 0 <= i' < i && 0 <= j' < |addrs| ==> !Propagates(probe(i', j')))
           && (forall j' :: 0 <= j' < j ==> !Propagates(probe(i, j')));
      assert ports[i] == r.port;
    } else {
      ScanSucceedsIff(init, addrs, probe);
      var k := |ports| - 1;
      RowRaisesFirst(k, last, addrs, probe);
      var r := ScanRow(k, last, addrs, probe);
      var j :| 0 <= j < |addrs| && addrs[j] == r.addr && r.error == probe(k, j)
           && forall j' :: 0 <= j' < j ==> !Propagates(probe(k, j'));
      assert ports[k] == r.port;
    }
  }

  /** Port-major order: the hits found on the first ports come first. */
  lemma {:induction false} ScanExtendsPrefix(ports: seq<string>, addrs: seq<int>, probe: Prober, i: nat)
    requires i <= |ports| && Scan(ports, addrs, probe).Devices?
    ensures Scan(ports[..i], addrs, probe).Devices?
    ensures Scan(ports[..i], addrs, probe).found <= Scan(ports, addrs, probe).found
    decreases |ports|
  {
    if i < |ports| {
      var init := ports[..|ports| - 1];
      assert init[..i] == ports[..i];
      ScanExtendsPrefix(init, addrs, probe, i);
    } else {
      assert ports[..i] == ports;
    }
  }

  /** An address listed twice is probed twice, as a fresh device each time:
      a first probe that times out does not stop the second from being found. */
  lemma RepeatedAddressProbedAgain(port: string, a: int, probe: Prober)
    requires probe(0, 0).TimedOut? && probe(0, 1).Found?
    ensures Scan([port], [a, a], probe) == Devices([Hit(port, probe(0, 1).config, probe(0, 1).fw)])
  {
    var hit := Hit(port, probe(0, 1).config, probe(0, 1).fw);
    assert [a, a][..1] == [a] && [a][..0] == [];
    assert ScanRow(0, port, [a], probe) == Devices([]);
    assert ScanRow(0, port, [a, a], probe) == Devices([hit]);
    assert [port][..0] == [];
    assert Scan([port], [a, a], probe) == Devices([] + [hit]);
  }
}
