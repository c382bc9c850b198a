/**
 * The port bus: devices registered under lists of 16-bit ports, byte writes
 * and reads routed to the device that owns a port, and the timer whose
 * 32-bit counter is loaded one byte lane at a time.
 */
module Devices {
  import opened Bits
  import opened Interrupts

  /**
   * The devices on the bus. A console's standard streams are byte
   * sequences: what it has printed and what is still to be read.
   */
  datatype Device =
    | Timer(counter: u32, irq: u8, mode: u8)
    | Console(output: seq<u8>, input: seq<u8>)

  /** `Timer::new`: counter and mode start at zero. */
  function NewTimer(irq: u8): (d: Device)
    ensures d.Timer? && d.counter == 0 && d.irq == irq && d.mode == 0
  {
    Timer(0, irq, 0)
  }

  /**
   * Byte lane `k` of the counter: `counter ^= (counter & (0xFF << 8k)) ^
   * ((byte as u32) << 8k)`; the masks are 0xFF, 0xFF00, 0xFF0000 and
   * 0xFF000000 for ports 0 to 3.
   */
  function LoadLane(counter: u32, k: nat, byte: u8): u32
    requires k < 4
  {
    LaneBounds(counter, k, byte);
    BitXor(counter, BitXor(BitAnd(counter, Shifted(0xFF, 8 * k)), Shifted(byte, 8 * k)))
  }

  lemma LaneBounds(counter: u32, k: nat, byte: u8)
    requires k < 4
    ensures BitXor(counter, BitXor(BitAnd(counter, Shifted(0xFF, 8 * k)), Shifted(byte, 8 * k))) < 0x1_0000_0000
  {
    Pow2Of32();
    var inner := BitXor(BitAnd(counter, Shifted(0xFF, 8 * k)), Shifted(byte, 8 * k));
    InnerLaneBound(counter, k, byte);
    XorBound(counter, inner, 32);
  }

  lemma InnerLaneBound(counter: u32, k: nat, byte: u8)
    requires k < 4
    ensures BitXor(BitAnd(counter, Shifted(0xFF, 8 * k)), Shifted(byte, 8 * k)) < Pow2(32)
  {
    Pow2Of8();
    Pow2Of32();
    ShiftedBound(byte, 8 * k, 8);
    PowMono(8 * k + 8, 32);
    AndBound(counter, Shifted(0xFF, 8 * k));
    XorBound(BitAnd(counter, Shifted(0xFF, 8 * k)), Shifted(byte, 8 * k), 32);
  }

  /**
   * `Device::out_u8`. The timer's ports 0 to 3 load a counter byte and port 4
   * sets the mode; any higher timer port reaches `unreachable!()`, which stops
   * the simulator (`None`). The console prints the byte.
   */
  function DeviceOut(d: Device, port: u16, byte: u8): (r: Option<Device>)
    ensures r.None? <==> d.Timer? && port > 4
    ensures r.Some? ==> r.value.Timer? == d.Timer?
  {
    match d
    case Timer(counter, irq, mode) =>
      if port < 4 then Some(Timer(LoadLane(counter, port, byte), irq, mode))
      else if port == 4 then Some(Timer(counter, irq, byte))
      else None
    case Console(output, input) => Some(Console(output + [byte], input))
  }

  /** `Device::in_u8`: the timer reads 0xFF; the console takes the next input byte, or 0xFF at the end. */
  function DeviceIn(d: Device, port: u16): (Device, u8) {
    match d
    case Timer(_, _, _) => (d, 0xFF)
    case Console(output, input) =>
      if |input| == 0 then (d, 0xFF) else (Console(output, input[1..]), input[0])
  }

  /** Every mapped port names an existing device. */
  predicate Routed(devices: seq<Device>, ports: map<u16, (nat, u16)>) {
    forall p | p in ports :: ports[p].0 < |devices|
  }

  /**
   * The port map after `add`: `ports[i]` is mapped to `(index, i)` in list
   * order, so a port listed twice keeps its last position.
   */
  function AddPorts(ports: map<u16, (nat, u16)>, list: seq<u16>, index: nat): map<u16, (nat, u16)>
  {
    if |list| == 0 then ports
    else AddPorts(ports, list[..|list| - 1], index)[list[|list| - 1] := (index, Trunc16(|list| - 1))]
  }

  /** The last position of `p` in `list`. */
  function LastIndex(list: seq<u16>, p: u16): (r: nat)
    requires p in list
    ensures r < |list| && list[r] == p
    ensures forall j | r < j < |list| :: list[j] != p
  {
    if list[|list| - 1] == p then |list| - 1 else LastIndex(list[..|list| - 1], p)
  }

  /** The two lists hold the same kind of device at every position. */
  predicate SameKinds(a: seq<Device>, b: seq<Device>) {
    |a| == |b| && forall i | 0 <= i < |a| :: a[i].Timer? == b[i].Timer?
  }

  /** The devices after port writes, and whether one of them stopped the simulator. */
  datatype Sent = Sent(devices: seq<Device>, halted: bool)

  /** A port that the map routes to a timer at a local port above 4, where `out_u8` is unreachable. */
  predicate HaltingPort(devices: seq<Device>, ports: map<u16, (nat, u16)>, port: u16)
    requires Routed(devices, ports)
  {
    port in ports && devices[ports[port].0].Timer? && ports[port].1 > 4
  }

  /**
   * `out_u8`: an unmapped port drops the byte; a mapped one passes its local
   * port to the device, and a timer's unreachable port stops the simulator
   * with the devices as they were.
   */
  function PortOut(devices: seq<Device>, ports: map<u16, (nat, u16)>, port: u16, byte: u8): (r: Sent)
    requires Routed(devices, ports)
    ensures SameKinds(r.devices, devices)
    ensures r.halted <==> HaltingPort(devices, ports, port)
    ensures r.halted ==> r.devices == devices
  {
    if port in ports then
      var (d, local) := ports[port];
      match DeviceOut(devices[d], local, byte)
      case None => Sent(devices, true)
      case Some(device) => Sent(devices[d := device], false)
    else Sent(devices, false)
  }

  /** `port + i` on 16 bits: the port of byte `i` of `out_u32`. */
  function PortAt(port: u16, i: nat): u16 { Trunc16(port + i) }

  /**
   * The first `n` bytes of `out_u32`: byte `i` goes to port `port + i`
   * (wrapping); a byte that stops the simulator ends the run, keeping what
   * the bytes before it did.
   */
  function PortOutBytes(devices: seq<Device>, ports: map<u16, (nat, u16)>, port: u16, bytes: seq<u8>, n: nat): (r: Sent)
    requires Routed(devices, ports) && n <= |bytes|
    ensures SameKinds(r.devices, devices)
  {
    if n == 0 then Sent(devices, false)
    else
      var before := PortOutBytes(devices, ports, port, bytes, n - 1);
      if before.halted then before
      else PortOut(before.devices, ports, PortAt(port, n - 1), bytes[n - 1])
  }

  /** `in_u8`: an unmapped port reads 0xFF. */
  function PortIn(devices: seq<Device>, ports: map<u16, (nat, u16)>, port: u16): (r: (seq<Device>, u8))
    requires Routed(devices, ports)
    ensures |r.0| == |devices|
  {
    if port in ports then
      var (d, local) := ports[port];
      var (d', b) := DeviceIn(devices[d], local);
      (devices[d := d'], b)
    else (devices, 0xFF)
  }

  /** `PortDevices`: the devices in order of registration and the port map. */
  class PortDevices {
    var devices: seq<Device>
    var ports: map<u16, (nat, u16)>

    ghost predicate Valid()
      reads this
    {
      Routed(devices, ports)
    }

    constructor()
      ensures devices == [] && ports == map[] && Valid()
    {
      devices := [];
      ports := map[];
    }

    /** `add`: the new device gets the next index and every listed port is routed to it. */
    method Add(list: seq<u16>, device: Device)
      requires Valid()
      modifies this
      ensures Valid()
      ensures devices == old(devices) + [device]
      ensures ports == AddPorts(old(ports), list, |old(devices)|)
    {
      var index := |devices|;
      devices := devices + [device];
      var i := 0;
      while i < |list|
        invariant 0 <= i <= |list|
        invariant devices == old(devices) + [device]
        invariant ports == AddPorts(old(ports), list[..i], index)
        invariant Routed(devices, ports)
      {
        assert list[..i + 1][..i] == list[..i];
        ports := ports[list[i] := (index, Trunc16(i))];
        i := i + 1;
      }
      assert list[..|list|] == list;
    }

    method OutU8(port: u16, byte: u8) returns (halted: bool)
      requires Valid()
      modifies this
      ensures Valid() && ports == old(ports)
      ensures Sent(devices, halted) == PortOut(old(devices), ports, port, byte)
    {
      halted := false;
      if port in ports {
        var (d, local) := ports[port];
        match DeviceOut(devices[d], local, byte)
        case None => halted := true;
        case Some(device) => devices := devices[d := device];
      }
    }

    /**
     * `out_u32`: the four little-endian bytes to four consecutive ports,
     * skipping unmapped ones, until a device stops the simulator.
     */
    method OutU32(port: u16, value: u32) returns (halted: bool)
      requires Valid()
      modifies this
      ensures Valid() && ports == old(ports)
      ensures Sent(devices, halted) == PortOutBytes(old(devices), ports, port, ToLe(value, 4), 4)
    {
      var bytes := ToLe(value, 4);
      halted := false;
      var i := 0;
      while i < 4 && !halted
        invariant 0 <= i <= 4
        invariant Valid() && ports == old(ports)
        invariant Sent(devices, halted) == PortOutBytes(old(devices), ports, port, bytes, i)
      {
        halted := OutU8(PortAt(port, i), bytes[i]);
        i := i + 1;
      }
      if halted {
        HaltedStays(old(devices), ports, port, bytes, i, 4);
      }
    }

    method InU8(port: u16) returns (byte: u8)
      requires Valid()
      modifies this
      ensures Valid() && ports == old(ports)
      ensures (devices, byte) == PortIn(old(devices), ports, port)
    {
      if port in ports {
        var (d, local) := ports[port];
        var (d', b) := DeviceIn(devices[d], local);
        devices := devices[d := d'];
        return b;
      }
      return 0xFF;
    }
  }

  // ---- Properties ----

  /** Loading lane `k` replaces exactly byte `k` of the counter. */
  lemma LoadLaneReplacesByte(counter: u32, k: nat, byte: u8)
    requires k < 4
    ensures ToLe(LoadLane(counter, k, byte), 4) == ToLe(counter, 4)[k := byte]
  {
    LoadLaneArith(counter, k, byte);
    ToLeReplace(counter, byte, k, 4, LoadLane(counter, k, byte));
  }

  /** Loading lane `k` adds `(byte - lane_k) * 256^k` to the counter. */
  lemma LoadLaneArith(counter: u32, k: nat, byte: u8)
    requires k < 4
    ensures LoadLane(counter, k, byte) == counter + (byte - ByteLane(counter, k)) * Pow256(k)
  {
    LoadLaneField(counter, k, byte);
    LaneArith(counter, byte, k);
  }

  /** Loading lane `k` replaces bits `8k..8k+7` of the counter by the byte. */
  lemma LoadLaneField(counter: u32, k: nat, byte: u8)
    requires k < 4
    ensures LowBits(counter, 8 * k) <= LowBits(counter, 8 * k + 8)
    ensures LoadLane(counter, k, byte) ==
      counter - (LowBits(counter, 8 * k + 8) - LowBits(counter, 8 * k)) + Shifted(byte, 8 * k)
  {
    LaneMasks(k);
    Pow2Of8();
    MergeField(counter, byte, 8 * k, 8);
  }

  /** `0xFF << 8k` is `2^(8k+8) - 2^(8k)`. */
  lemma LaneMasks(k: nat)
    ensures Shifted(0xFF, 8 * k) == Pow2(8 * k + 8) - Pow2(8 * k)
  {
    Pow2Of8();
    Pow2Add(8 * k, 8);
    ShiftedIsProduct(0xFF, 8 * k);
  }

  /**
   * After `add`, a listed port is routed to the new device at the local port
   * of its last position in the list, and every other port keeps its mapping.
   */
  lemma {:induction false} AddPortsLookup(ports: map<u16, (nat, u16)>, list: seq<u16>, index: nat, p: u16)
    ensures p in list ==>
      p in AddPorts(ports, list, index) && AddPorts(ports, list, index)[p] == (index, Trunc16(LastIndex(list, p)))
    ensures p !in list ==> (p in AddPorts(ports, list, index) <==> p in ports)
    ensures p !in list && p in ports ==> AddPorts(ports, list, index)[p] == ports[p]
  {
    if |list| > 0 {
      var init := list[..|list| - 1];
      AddPortsLookup(ports, init, index, p);
      assert list == init + [list[|list| - 1]];
      assert p in list <==> p in init || p == list[|list| - 1];
    }
  }

  /** The port map after `add` routes only to devices up to the new one. */
  lemma {:induction false} AddPortsRouted(devices: seq<Device>, ports: map<u16, (nat, u16)>, list: seq<u16>, device: Device)
    requires Routed(devices, ports)
    ensures Routed(devices + [device], AddPorts(ports, list, |devices|))
  {
    if |list| > 0 {
      AddPortsRouted(devices, ports, list[..|list| - 1], device);
    }
  }

  /** Writing a byte to an unmapped port, or reading one, changes no device; the read is 0xFF. */
  lemma UnmappedPort(devices: seq<Device>, ports: map<u16, (nat, u16)>, port: u16, byte: u8)
    requires Routed(devices, ports) && port !in ports
    ensures PortOut(devices, ports, port, byte) == Sent(devices, false)
    ensures PortIn(devices, ports, port) == (devices, 0xFF)
  {}

  /** A timer's read is always 0xFF and leaves it unchanged. */
  lemma TimerReadsAllOnes(d: Device, port: u16)
    requires d.Timer?
    ensures DeviceIn(d, port) == (d, 0xFF)
  {}

  /**
   * `out_u32` to a timer whose counter lanes are the four consecutive ports
   * from `port` loads the whole counter with the value.
   */
  lemma TimerLoadU32(devices: seq<Device>, ports: map<u16, (nat, u16)>, port: u16, t: nat, value: u32)
    requires Routed(devices, ports) && t < |devices| && devices[t].Timer?
    requires forall i | 0 <= i < 4 :: PortAt(port, i) in ports && ports[PortAt(port, i)] == (t, i)
    ensures !PortOutBytes(devices, ports, port, ToLe(value, 4), 4).halted
    ensures PortOutBytes(devices, ports, port, ToLe(value, 4), 4).devices[t].Timer?
    ensures PortOutBytes(devices, ports, port, ToLe(value, 4), 4).devices[t].counter == value
  {
    TimerLoadPrefix(devices, ports, port, t, value, 4);
    var after := PortOutBytes(devices, ports, port, ToLe(value, 4), 4).devices[t];
    assert ToLe(after.counter, 4) == ToLe(value, 4);
    FromLeToLe(after.counter, 4);
    FromLeToLe(value, 4);
    Pow256Table();
  }

  /** After `n` bytes the timer's low `n` counter bytes are the value's and the rest are unchanged. */
  lemma {:induction false} TimerLoadPrefix(devices: seq<Device>, ports: map<u16, (nat, u16)>, port: u16, t: nat, value: u32, n: nat)
    requires Routed(devices, ports) && t < |devices| && devices[t].Timer? && n <= 4
    requires forall i | 0 <= i < 4 :: PortAt(port, i) in ports && ports[PortAt(port, i)] == (t, i)
    ensures !PortOutBytes(devices, ports, port, ToLe(value, 4), n).halted
    ensures PortOutBytes(devices, ports, port, ToLe(value, 4), n).devices[t].Timer?
    ensures ToLe(PortOutBytes(devices, ports, port, ToLe(value, 4), n).devices[t].counter, 4) ==
      ToLe(value, 4)[..n] + ToLe(devices[t].counter, 4)[n..]
  {
    var v, c := ToLe(value, 4), ToLe(devices[t].counter, 4);
    if n == 0 {
      assert v[..0] + c[0..] == c;
    } else {
      TimerLoadPrefix(devices, ports, port, t, value, n - 1);
      var mid := PortOutBytes(devices, ports, port, v, n - 1).devices;
      assert ports[PortAt(port, n - 1)] == (t, n - 1);
      PortOutTimer(mid, ports, PortAt(port, n - 1), t, n - 1, v[n - 1]);
      LoadLaneReplacesByte(mid[t].counter, n - 1, v[n - 1]);
      SpliceStep(v, c, n);
    }
  }

  /** A byte sent to a port routed to lane `k` of a timer loads that lane. */
  lemma PortOutTimer(devices: seq<Device>, ports: map<u16, (nat, u16)>, p: u16, t: nat, k: nat, byte: u8)
    requires Routed(devices, ports) && t < |devices| && devices[t].Timer? && k < 4
    requires p in ports && ports[p] == (t, k)
    ensures !PortOut(devices, ports, p, byte).halted
    ensures PortOut(devices, ports, p, byte).devices[t].Timer?
    ensures PortOut(devices, ports, p, byte).devices[t].counter == LoadLane(devices[t].counter, k, byte)
  {}

  lemma SpliceStep(a: seq<u8>, b: seq<u8>, n: nat)
    requires |a| == |b| && 0 < n <= |a|
    ensures (a[..n - 1] + b[n - 1..])[n - 1 := a[n - 1]] == a[..n] + b[n..]
  {}

  /** Once a byte of `out_u32` has stopped the simulator, the later bytes change nothing. */
  lemma {:induction false} HaltedStays(devices: seq<Device>, ports: map<u16, (nat, u16)>, port: u16, bytes: seq<u8>, i: nat, n: nat)
    requires Routed(devices, ports) && i <= n <= |bytes|
    requires PortOutBytes(devices, ports, port, bytes, i).halted
    ensures PortOutBytes(devices, ports, port, bytes, n) == PortOutBytes(devices, ports, port, bytes, i)
    decreases n
  {
    if n > i {
      HaltedStays(devices, ports, port, bytes, i, n - 1);
    }
  }

  /**
   * `out_u32` stops the simulator exactly when one of its first `n` ports is
   * a timer port above 4; which devices are timers never changes on the way.
   */
  lemma {:induction false} PortOutBytesHalts(devices: seq<Device>, ports: map<u16, (nat, u16)>, port: u16, bytes: seq<u8>, n: nat)
    requires Routed(devices, ports) && n <= |bytes|
    ensures PortOutBytes(devices, ports, port, bytes, n).halted <==>
      exists i | 0 <= i < n :: HaltingPort(devices, ports, PortAt(port, i))
  {
    if n > 0 {
      PortOutBytesHalts(devices, ports, port, bytes, n - 1);
      var before := PortOutBytes(devices, ports, port, bytes, n - 1);
      assert HaltingPort(before.devices, ports, PortAt(port, n - 1)) <==> HaltingPort(devices, ports, PortAt(port, n - 1));
      if !before.halted {
        assert forall i | 0 <= i < n - 1 :: !HaltingPort(devices, ports, PortAt(port, i));
      }
    }
  }
}
