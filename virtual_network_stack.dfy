/** The per-shard network stack facade: the two low-memory observer slots
    (TCP and RDMA), the two payload allocators and the start/stop hooks.
    Listening and connecting are calls into the engine's network stacks and
    are not modelled. */
module VirtualNetwork {
  import Chrono

  // ---------------------------------------------------------------------------
  // Segment sizes
  // ---------------------------------------------------------------------------

  /** seastar's `hw_features().mtu` default and its minimal header sizes. */
  const Mtu: nat := 1500
  const TcpHdrLenMin: nat := 20
  const Ipv4HdrLenMin: nat := 20
  const EthHdrLen: nat := 14

  /** seastar's `RDMAStack::RCDataSize`: the RDMA receive buffer size. */
  const RcDataSize: nat := 8192

  const Uint16Modulus: nat := 0x1_0000

  /** `tcpsegsize`: the MTU less the TCP, IPv4 and Ethernet headers,
      narrowed to `uint16_t`. */
  const TcpSegSize: nat := (Mtu - TcpHdrLenMin - Ipv4HdrLenMin - EthHdrLen) % Uint16Modulus

  /** `rrdmasegsize`: the RDMA data size narrowed to `uint16_t`. */
  const RrdmaSegSize: nat := RcDataSize % Uint16Modulus

  /** A `Payload::DefaultAllocator`: hands out buffers of one size. */
  datatype BinaryAllocator = DefaultAllocator(segmentSize: nat)

  /** Both sizes survive the narrowing, and a TCP segment fits one Ethernet
      frame together with its headers. */
  lemma SegmentSizes()
    ensures TcpSegSize == Mtu - TcpHdrLenMin - Ipv4HdrLenMin - EthHdrLen == 1446
    ensures RrdmaSegSize == RcDataSize
    ensures TcpSegSize + TcpHdrLenMin + Ipv4HdrLenMin + EthHdrLen == Mtu
    ensures TcpSegSize != RrdmaSegSize
  {
  }

  // ---------------------------------------------------------------------------
  // Observers
  // ---------------------------------------------------------------------------

  /** A `LowMemoryObserver_t` value: empty (`nullptr`), one of the two
      default logging observers installed by the stack, or a callback the
      owner registered (told apart by an identity). */
  datatype Observer = Empty | DefaultTcp | DefaultRrdma | Callback(id: nat)

  /** The warning a default observer logs when asked to release memory; the
      byte count is printed in decimal. */
  function DefaultObserverWarning(transport: string, requiredReleaseBytes: nat): string {
    transport + " transport needs " + Chrono.Digits(requiredReleaseBytes)
      + "bytes released, but there is no observer registered"
  }

  /** What an observer does when the transport needs `bytes` released: a
      default observer logs its warning, a registered callback is called. */
  datatype Notification = Warned(text: string) | Called(id: nat, bytes: nat) | Nothing

  function Notify(o: Observer, bytes: nat): (n: Notification)
    ensures o != Empty ==> n != Nothing
  {
    match o
    case Empty => Nothing
    case DefaultTcp => Warned(DefaultObserverWarning("TCP", bytes))
    case DefaultRrdma => Warned(DefaultObserverWarning("RRDMA", bytes))
    case Callback(id) => Called(id, bytes)
  }

  /** What registering `observer` leaves in a slot whose default is `dflt`:
      the default for an empty observer, the observer itself otherwise. */
  function Installed(observer: Observer, dflt: Observer): (o: Observer)
    requires dflt != Empty
    ensures o != Empty
    ensures observer != Empty ==> o == observer
  {
    if observer == Empty then dflt else observer
  }

  /** The outcome of `stop()`: a ready future. */
  datatype StopOutcome = Stopped

  class VirtualNetworkStack {
    var lowTcpMemObserver: Observer
    var lowRrdmaMemObserver: Observer

    /** While the stack is alive neither slot is empty. */
    ghost predicate Valid()
      reads this
    {
      lowTcpMemObserver != Empty && lowRrdmaMemObserver != Empty
    }

    /** The constructor starts from two empty slots and registers an empty
        observer on each, which installs both defaults. */
    constructor ()
      ensures Valid()
      ensures lowTcpMemObserver == DefaultTcp && lowRrdmaMemObserver == DefaultRrdma
    {
      lowTcpMemObserver := Empty;
      lowRrdmaMemObserver := Empty;
      new;
      RegisterLowTcpMemoryObserver(Empty);
      RegisterLowRrdmaMemoryObserver(Empty);
    }

    /** The destructor empties the TCP slot and only that. */
    method Destroy()
      modifies this
      ensures lowTcpMemObserver == Empty
      ensures lowRrdmaMemObserver == old(lowRrdmaMemObserver)
    {
      lowTcpMemObserver := Empty;
    }

    /** `registerLowTCPMemoryObserver`: an empty observer installs the
        default; any other replaces the TCP slot. The RDMA slot is kept. */
    method RegisterLowTcpMemoryObserver(observer: Observer)
      modifies this
      ensures lowTcpMemObserver == Installed(observer, DefaultTcp)
      ensures lowRrdmaMemObserver == old(lowRrdmaMemObserver)
      ensures old(lowRrdmaMemObserver) != Empty ==> Valid()
    {
      if observer == Empty {
        lowTcpMemObserver := DefaultTcp;
      } else {
        lowTcpMemObserver := observer;
      }
    }

    /** `registerLowRRDMAMemoryObserver`: the same rule for the RDMA slot;
        the TCP slot is kept. */
    method RegisterLowRrdmaMemoryObserver(observer: Observer)
      modifies this
      ensures lowRrdmaMemObserver == Installed(observer, DefaultRrdma)
      ensures lowTcpMemObserver == old(lowTcpMemObserver)
      ensures old(lowTcpMemObserver) != Empty ==> Valid()
    {
      if observer == Empty {
        lowRrdmaMemObserver := DefaultRrdma;
      } else {
        lowRrdmaMemObserver := observer;
      }
    }

    /** `getTCPAllocator()`: reads no state, so every call gives the same. */
    function GetTcpAllocator(): (a: BinaryAllocator)
      ensures a.segmentSize == Mtu - TcpHdrLenMin - Ipv4HdrLenMin - EthHdrLen
    {
      DefaultAllocator(TcpSegSize)
    }

    /** `getRRDMAAllocator()`: reads no state either. */
    function GetRrdmaAllocator(): (a: BinaryAllocator)
      ensures a.segmentSize == RcDataSize
    {
      DefaultAllocator(RrdmaSegSize)
    }

    /** `start()`: only logs. */
    method Start()
      ensures unchanged(this)
    {
    }

    /** `stop()`: completes at once, whether or not the stack was started. */
    method Stop() returns (r: StopOutcome)
      ensures r == Stopped
      ensures unchanged(this)
    {
      r := Stopped;
    }
  }

  /** After a sequence of TCP registrations followed by a sequence of RDMA
      registrations, a low-memory signal on either transport is still
      delivered somewhere: it reaches the last observer registered for that
      transport, or the default warning if that one was empty or there was
      none. */
  method RegistrationScenario(tcp: seq<Observer>, rrdma: seq<Observer>, bytes: nat)
    returns (tcpNote: Notification, rrdmaNote: Notification)
    ensures tcpNote != Nothing && rrdmaNote != Nothing
    ensures tcp != [] && tcp[|tcp| - 1] != Empty ==> tcpNote == Notify(tcp[|tcp| - 1], bytes)
    ensures tcp != [] && tcp[|tcp| - 1] == Empty ==> tcpNote == Warned(DefaultObserverWarning("TCP", bytes))
    ensures tcp == [] ==> tcpNote == Warned(DefaultObserverWarning("TCP", bytes))
    ensures rrdma != [] && rrdma[|rrdma| - 1] != Empty ==> rrdmaNote == Notify(rrdma[|rrdma| - 1], bytes)
    ensures rrdma == [] || rrdma[|rrdma| - 1] == Empty ==> rrdmaNote == Warned(DefaultObserverWarning("RRDMA", bytes))
  {
    var stack := new VirtualNetworkStack();
    var i := 0;
    while i < |tcp|
      invariant 0 <= i <= |tcp|
      invariant stack.Valid()
      invariant stack.lowRrdmaMemObserver == DefaultRrdma
      invariant stack.lowTcpMemObserver == if i == 0 then DefaultTcp else Installed(tcp[i - 1], DefaultTcp)
    {
      stack.RegisterLowTcpMemoryObserver(tcp[i]);
      i := i + 1;
    }
    var j := 0;
    while j < |rrdma|
      invariant 0 <= j <= |rrdma|
      invariant stack.Valid()
      invariant stack.lowTcpMemObserver == if |tcp| == 0 then DefaultTcp else Installed(tcp[|tcp| - 1], DefaultTcp)
      invariant stack.lowRrdmaMemObserver == if j == 0 then DefaultRrdma else Installed(rrdma[j - 1], DefaultRrdma)
    {
      stack.RegisterLowRrdmaMemoryObserver(rrdma[j]);
      j := j + 1;
    }
    tcpNote := Notify(stack.lowTcpMemObserver, bytes);
    rrdmaNote := Notify(stack.lowRrdmaMemObserver, bytes);
  }
}
