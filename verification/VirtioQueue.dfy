/**
  The virtio block driver and its device on one split ring. The driver's writes
  and the device's steps interleave; a write becomes visible when it is made.
 */
module VirtioQueue {
  import opened Arithmetic

  const QUEUE_SIZE: nat := 16
  const U16: nat := 0x1_0000
  const DESC_NEXT: nat := 1
  const DESC_WRITE: nat := 2
  const HEADER_SIZE: nat := 16
  const SECTOR_SIZE: nat := 512
  const FOOTER_SIZE: nat := 1

  datatype RequestType = Read | Write | Flush

  /** A request by the addresses of its three parts. */
  datatype Request = Request(kind: RequestType, header: nat, data: nat, footer: nat)

  datatype Desc = Desc(addr: nat, length: nat, flags: nat, next: nat)

  /** The memory that driver and device share, and the driver's next free descriptor. */
  datatype Memory = Memory(desc: seq<Desc>, ring: seq<nat>, availIdx: nat, nextHead: nat) {
    predicate Sized() {
      |desc| == QUEUE_SIZE && |ring| == QUEUE_SIZE && nextHead < QUEUE_SIZE && availIdx < U16
    }
  }

  function After(d: nat): (r: nat)
    ensures r < QUEUE_SIZE
  {
    (d + 1) % QUEUE_SIZE
  }

  // ---------------------------------------------------------------------------
  // The driver's writes, in program order
  // ---------------------------------------------------------------------------

  function WriteHeader(m: Memory, q: Request): Memory
    requires m.Sized()
  {
    m.(desc := m.desc[m.nextHead := Desc(q.header, HEADER_SIZE, DESC_NEXT, After(m.nextHead))])
  }

  /** A flush has no data: its descriptor keeps whatever address and length it had. */
  function WriteData(m: Memory, q: Request): Memory
    requires m.Sized()
  {
    var at := After(m.nextHead);
    var before := m.desc[at];
    m.(desc := m.desc[at := Desc(
                 if q.kind == Flush then before.addr else q.data,
                 if q.kind == Flush then before.length else SECTOR_SIZE,
                 if q.kind == Read then DESC_NEXT + DESC_WRITE else DESC_NEXT,
                 After(at))])
  }

  function WriteFooter(m: Memory, q: Request): Memory
    requires m.Sized()
  {
    m.(desc := m.desc[After(After(m.nextHead)) := Desc(q.footer, FOOTER_SIZE, DESC_WRITE, 0)])
  }

  function WriteRing(m: Memory): Memory
    requires m.Sized()
  {
    m.(ring := m.ring[m.availIdx % QUEUE_SIZE := m.nextHead])
  }

  function BumpIdx(m: Memory): Memory {
    m.(availIdx := (m.availIdx + 1) % U16)
  }

  function BumpHead(m: Memory): Memory {
    m.(nextHead := After(After(After(m.nextHead))))
  }

  function Submitted(m: Memory, q: Request): (r: Memory)
    requires m.Sized()
    ensures r.Sized()
  {
    BumpHead(BumpIdx(WriteRing(WriteFooter(WriteData(WriteHeader(m, q), q), q))))
  }

  /** The driver's queue memory, written in place. */
  class DriverState {
    const descriptors: array<Desc>
    const ring: array<nat>
    var availIdx: nat
    var nextHead: nat

    ghost predicate Valid()
      reads this, descriptors, ring
    {
      View().Sized()
    }

    ghost function View(): Memory
      reads this, descriptors, ring
    {
      Memory(descriptors[..], ring[..], availIdx, nextHead)
    }

    constructor ()
      ensures Valid() && View().availIdx == 0 && View().nextHead == 0
      ensures fresh(descriptors) && fresh(ring)
    {
      descriptors := new Desc[QUEUE_SIZE](_ => Desc(0, 0, 0, 0));
      ring := new nat[QUEUE_SIZE](_ => 0);
      availIdx := 0;
      nextHead := 0;
    }

    /** Fills three descriptors, publishes their head and moves on. */
    method Submit(q: Request)
      requires Valid()
      modifies this, descriptors, ring
      ensures Valid() && View() == Submitted(old(View()), q)
    {
      var head := nextHead;
      var second := (head + 1) % QUEUE_SIZE;
      descriptors[head] := Desc(q.header, HEADER_SIZE, DESC_NEXT, second);
      var third := (second + 1) % QUEUE_SIZE;
      var d := descriptors[second];
      if q.kind != Flush {
        d := d.(addr := q.data, length := SECTOR_SIZE);
      }
      descriptors[second] := d.(flags := DESC_NEXT + if q.kind == Read then DESC_WRITE else 0, next := third);
      descriptors[third] := Desc(q.footer, FOOTER_SIZE, DESC_WRITE, 0);
      ring[availIdx % QUEUE_SIZE] := nextHead;
      availIdx := (availIdx + 1) % U16;
      nextHead := (third + 1) % QUEUE_SIZE;
    }
  }

  // ---------------------------------------------------------------------------
  // Driver and device together
  // ---------------------------------------------------------------------------

  /** Which of the driver's writes comes next. */
  datatype Pc = Idle | AtHeader | AtData | AtFooter | AtRing | AtIdx | AtHead | Waiting

  /**
    The shared memory, the device's index, and how many chains have been
    published by the driver, taken by the device, and completed by it.
   */
  datatype World = World(mem: Memory, usedIdx: nat, pc: Pc, req: Request, published: nat, taken: nat, completed: nat)

  datatype Event = Begin(q: Request) | DriverWrite | DeviceTakes | DeviceCompletes | Returns

  predicate Enabled(w: World, e: Event) {
    match e
    case Begin(_) => w.pc == Idle
    case DriverWrite => w.pc != Idle && w.pc != Waiting
    case DeviceTakes => IdxOf(w.taken) != w.mem.availIdx
    case DeviceCompletes => w.completed < w.taken
    case Returns => w.pc == Waiting && w.usedIdx == w.mem.availIdx
  }

  function Write(w: World): World
    requires w.mem.Sized()
  {
    match w.pc
    case AtHeader => w.(mem := WriteHeader(w.mem, w.req), pc := AtData)
    case AtData => w.(mem := WriteData(w.mem, w.req), pc := AtFooter)
    case AtFooter => w.(mem := WriteFooter(w.mem, w.req), pc := AtRing)
    case AtRing => w.(mem := WriteRing(w.mem), pc := AtIdx)
    case AtIdx => w.(mem := BumpIdx(w.mem), pc := AtHead, published := w.published + 1)
    case AtHead => w.(mem := BumpHead(w.mem), pc := Waiting)
    case _ => w
  }

  function Do(w: World, e: Event): World
    requires w.mem.Sized() && Enabled(w, e)
  {
    match e
    case Begin(q) => w.(req := q, pc := AtHeader)
    case DriverWrite => Write(w)
    case DeviceTakes => w.(taken := w.taken + 1)
    case DeviceCompletes => w.(completed := w.completed + 1, usedIdx := (w.usedIdx + 1) % U16)
    case Returns => w.(pc := Idle)
  }

  function Start(desc: seq<Desc>, ring: seq<nat>, q: Request): World {
    World(Memory(desc, ring, 0, 0), 0, Idle, q, 0, 0, 0)
  }

  /** The chain that starts at a head, as the device follows it. */
  function Chain(desc: seq<Desc>, head: nat, fuel: nat): seq<nat>
    requires |desc| == QUEUE_SIZE && head < QUEUE_SIZE
    decreases fuel
  {
    if fuel == 0 then [] else
    if desc[head].flags % 2 == 1 && desc[head].next < QUEUE_SIZE then [head] + Chain(desc, desc[head].next, fuel - 1)
    else [head]
  }

  /** Where chain number n starts, which ring slot announces it, and the 16-bit index after n chains. */
  function HeadOf(n: nat): (h: nat)
    ensures h < QUEUE_SIZE
  {
    3 * n % QUEUE_SIZE
  }

  function SlotOf(n: nat): (s: nat)
    ensures s < QUEUE_SIZE
  {
    n % QUEUE_SIZE
  }

  function IdxOf(n: nat): (i: nat)
    ensures i < U16
  {
    n % U16
  }

  lemma NextHeadOf(n: nat)
    ensures After(After(After(HeadOf(n)))) == HeadOf(n + 1)
  {
    var h := HeadOf(n);
    assert After(After(After(h))) == (h + 3) % QUEUE_SIZE;
    ModAdd(3, 3 * n, QUEUE_SIZE);
  }

  lemma NextIdxOf(n: nat)
    ensures (IdxOf(n) + 1) % U16 == IdxOf(n + 1) != IdxOf(n)
  {
    ModAdd(1, n, U16);
  }

  lemma Counting(n: nat)
    ensures After(After(After(HeadOf(n)))) == HeadOf(n + 1)
    ensures (IdxOf(n) + 1) % U16 == IdxOf(n + 1) != IdxOf(n)
    ensures IdxOf(n) % QUEUE_SIZE == SlotOf(n)
  {
    hide HeadOf, After;
    NextHeadOf(n);
    NextIdxOf(n);
    ModOfMod(n, QUEUE_SIZE, 4096);
  }

  /** Three consecutive descriptors of the ring are distinct. */
  lemma ThreeDistinct(h: nat)
    requires h < QUEUE_SIZE
    ensures After(h) != h && After(After(h)) != h && After(After(h)) != After(h)
  {
  }

  /** The three descriptors of a request are filled in for it. */
  predicate FilledFor(desc: seq<Desc>, head: nat, q: Request, upTo: nat)
    requires |desc| == QUEUE_SIZE && head < QUEUE_SIZE
  {
    && (upTo >= 1 ==> desc[head] == Desc(q.header, HEADER_SIZE, DESC_NEXT, After(head)))
    && (upTo >= 2 ==>
          var d := desc[After(head)];
          && (q.kind != Flush ==> d.addr == q.data && d.length == SECTOR_SIZE)
          && d.flags == (if q.kind == Read then DESC_NEXT + DESC_WRITE else DESC_NEXT)
          && d.next == After(After(head)))
    && (upTo >= 3 ==> desc[After(After(head))] == Desc(q.footer, FOOTER_SIZE, DESC_WRITE, 0))
  }

  function Progress(pc: Pc): nat {
    match pc
    case Idle => 0
    case AtHeader => 0
    case AtData => 1
    case AtFooter => 2
    case _ => 3
  }

  /** Chains published but perhaps not completed: at most the current one. */
  predicate InFlight(pc: Pc) {
    pc == AtHead || pc == Waiting
  }

  /** The chain being written, or waited for. */
  function Current(w: World): nat {
    if InFlight(w.pc) && w.published > 0 then w.published - 1 else w.published
  }

  ghost predicate Inv(w: World) {
    && w.mem.Sized()
    && w.completed <= w.taken <= w.published <= w.completed + 1
    && (w.completed < w.published ==> InFlight(w.pc))
    && (InFlight(w.pc) ==> w.published >= 1)
    && w.mem.availIdx == IdxOf(w.published) && w.usedIdx == IdxOf(w.completed)
    && w.mem.nextHead == HeadOf(if w.pc == Waiting then w.published else Current(w))
    && FilledFor(w.mem.desc, HeadOf(Current(w)), w.req, Progress(w.pc))
    && (w.pc == AtIdx || InFlight(w.pc) ==> w.mem.ring[SlotOf(Current(w))] == HeadOf(Current(w)))
  }

  lemma StartIsInv(desc: seq<Desc>, ring: seq<nat>, q: Request)
    requires |desc| == QUEUE_SIZE && |ring| == QUEUE_SIZE
    ensures Inv(Start(desc, ring, q))
  {
  }

  lemma WriteKeepsInv(w: World)
    requires Inv(w) && Enabled(w, DriverWrite)
    ensures Inv(Write(w))
  {
    hide HeadOf, SlotOf, IdxOf, After;
    Counting(Current(w));
    ThreeDistinct(HeadOf(Current(w)));
  }

  lemma DeviceKeepsInv(w: World, e: Event)
    requires Inv(w) && Enabled(w, e) && (e == DeviceTakes || e == DeviceCompletes)
    ensures Inv(Do(w, e))
  {
    hide HeadOf, SlotOf, IdxOf, FilledFor;
    Counting(w.completed);
  }

  lemma StepKeepsInv(w: World, e: Event)
    requires Inv(w) && Enabled(w, e)
    ensures Inv(Do(w, e))
  {
    hide HeadOf, SlotOf, IdxOf;
    match e
    case Begin(_) =>
    case DriverWrite => WriteKeepsInv(w);
    case DeviceTakes => DeviceKeepsInv(w, e);
    case DeviceCompletes => DeviceKeepsInv(w, e);
    case Returns => Counting(w.completed);
  }

  // ---------------------------------------------------------------------------
  // Whole runs
  // ---------------------------------------------------------------------------

  /** Every event of the sequence is possible when its turn comes, and w' is the world afterwards. */
  ghost predicate Leads(w: World, es: seq<Event>, w': World)
    decreases |es|
  {
    if es == [] then w' == w
    else w.mem.Sized() && Enabled(w, es[0]) && Leads(Do(w, es[0]), es[1..], w')
  }

  lemma {:induction false} RunKeepsInv(w: World, es: seq<Event>, w': World)
    requires Inv(w) && Leads(w, es, w')
    ensures Inv(w')
    decreases |es|
  {
    hide Inv, Do, Enabled;
    if es != [] {
      StepKeepsInv(w, es[0]);
      RunKeepsInv(Do(w, es[0]), es[1..], w');
    }
  }

  ghost predicate Reachable(w: World) {
    exists desc: seq<Desc>, ring: seq<nat>, q: Request, es: seq<Event> ::
      |desc| == QUEUE_SIZE && |ring| == QUEUE_SIZE && Leads(Start(desc, ring, q), es, w)
  }

  lemma ReachableIsInv(w: World)
    requires Reachable(w)
    ensures Inv(w)
  {
    hide Inv, Leads;
    var desc: seq<Desc>, ring: seq<nat>, q: Request, es: seq<Event> :|
      |desc| == QUEUE_SIZE && |ring| == QUEUE_SIZE && Leads(Start(desc, ring, q), es, w);
    StartIsInv(desc, ring, q);
    RunKeepsInv(Start(desc, ring, q), es, w);
  }

  /**
    Over any number of requests: after n of them the driver's next descriptor is
    3n mod 16 and its index n mod 65536, and at most one chain is in flight.
   */
  lemma CountersAreExact(w: World)
    requires Reachable(w) && w.pc == Idle
    ensures w.published == w.completed == w.taken
    ensures w.mem.nextHead == 3 * w.published % QUEUE_SIZE
    ensures w.mem.availIdx == w.usedIdx == w.published % U16
  {
    ReachableIsInv(w);
  }

  /**
    The device never sees a half-written chain: whenever there is one to take,
    the ring slot it looks at names a chain of three distinct descriptors, header
    first and the writable footer last, of the request the driver is waiting for.
   */
  lemma DeviceSeesWholeChain(w: World)
    requires Reachable(w) && Enabled(w, DeviceTakes)
    ensures w.mem.Sized() && w.taken < w.published && w.mem.ring[w.taken % QUEUE_SIZE] == 3 * w.taken % QUEUE_SIZE
    ensures var h := HeadOf(w.taken);
            && FilledFor(w.mem.desc, h, w.req, 3)
            && Chain(w.mem.desc, h, QUEUE_SIZE) == [h, After(h), After(After(h))]
            && h != After(h) && h != After(After(h)) && After(h) != After(After(h))
  {
    ReachableIsInv(w);
    assert w.taken == Current(w);
    ThreeDistinct(HeadOf(w.taken));
    ChainOfFilled(w.mem.desc, HeadOf(w.taken), w.req);
  }

  lemma ChainOfFilled(desc: seq<Desc>, h: nat, q: Request)
    requires |desc| == QUEUE_SIZE && h < QUEUE_SIZE && FilledFor(desc, h, q, 3)
    ensures Chain(desc, h, QUEUE_SIZE) == [h, After(h), After(After(h))]
  {
    hide After;
    var a, b := After(h), After(After(h));
    assert Chain(desc, b, 14) == [b];
    assert Chain(desc, a, 15) == [a] + Chain(desc, b, 14);
    assert Chain(desc, h, 16) == [h] + Chain(desc, a, 15);
  }

  /** While a chain is unfinished, no step of anyone changes a descriptor or the ring. */
  lemma UnfinishedChainIsStable(w: World, e: Event)
    requires Reachable(w) && w.completed < w.published && w.mem.Sized() && Enabled(w, e)
    ensures Do(w, e).mem.desc == w.mem.desc && Do(w, e).mem.ring == w.mem.ring && Do(w, e).req == w.req
  {
    ReachableIsInv(w);
  }

  /** The driver stops waiting exactly when the device has completed its chain, also across the wrap of the index. */
  lemma WaitIsExact(w: World)
    requires Reachable(w) && w.pc == Waiting
    ensures Enabled(w, Returns) <==> w.completed == w.published
  {
    ReachableIsInv(w);
    Counting(w.completed);
  }

  /** Run without the device, the driver's writes are one submission. */
  lemma WritesAreSubmission(w: World)
    requires w.mem.Sized() && w.pc == AtHeader
    ensures var w' := Write(Write(Write(Write(Write(Write(w))))));
            w'.mem == Submitted(w.mem, w.req) && w'.pc == Waiting && w'.published == w.published + 1
  {
  }
}
