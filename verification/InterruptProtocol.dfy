/** The interrupt controller between device threads and the CPU thread, as steps that may
    interleave in any order.  Devices update the pending number and the CPU's flag under a
    mutex; the CPU checks the flag and queries the number without it, and acknowledges under
    it. */
module InterruptProtocol {
  import opened MachineInts

  const IRQ_BASE: u8 := 32
  const NO_INTR: u8 := 255

  /** The point a device thread has reached in i8259_raise_intr. */
  datatype Device = Resting | Waiting(irq: u8) | Locked(irq: u8) | Stored(irq: u8) | Flagged

  /** The point the CPU thread has reached in do_intr.  `seen` records, for the statement of
      the theorems only, the requests pending when the number was queried. */
  datatype Cpu =
    | Running
    | Checked
    | Queried(no: u8, seen: set<u8>)
    | AckLocked(no: u8, seen: set<u8>)
    | Cleared(no: u8, seen: set<u8>)
    | Unflagged(no: u8, seen: set<u8>)
    | Acked(no: u8, seen: set<u8>)

  datatype Owner = Free | HeldBy(d: nat) | HeldByCpu

  datatype Delivery = Delivery(no: u8, seen: set<u8>)

  /** `pending` holds the requests made since the number was last cleared, `log` the
      interrupts delivered; `failed` is the assertion in do_intr. */
  datatype State = State(
    intrNo: u8, intr: bool, IF: bool, mutex: Owner, devices: seq<Device>, cpu: Cpu,
    failed: bool, pending: set<u8>, log: seq<Delivery>)

  datatype Label =
    // device d, in i8259_raise_intr
    | Ask(d: nat, irq: u8) | Lock(d: nat) | Store(d: nat) | Flag(d: nat) | Unlock(d: nat)
    // the CPU: an instruction that leaves IF as given, then the parts of do_intr
    | Exec(newIF: bool) | Check | Query | AckLock | Clear | Unflag | AckUnlock | Raise(gateType: nat)

  function Init(n: nat): State
  {
    State(NO_INTR, false, false, Free, seq(n, _ => Resting), Running, false, {}, [])
  }

  predicate DeviceAt(s: State, d: nat)  { d < |s.devices| }

  predicate Enabled(s: State, l: Label)
  {
    !s.failed &&
    match l
    case Ask(d, irq) => DeviceAt(s, d) && s.devices[d].Resting?
    case Lock(d) => DeviceAt(s, d) && s.devices[d].Waiting? && s.mutex == Free
    case Store(d) => DeviceAt(s, d) && s.devices[d].Locked?
    case Flag(d) => DeviceAt(s, d) && s.devices[d].Stored?
    case Unlock(d) => DeviceAt(s, d) && s.devices[d].Flagged?
    case Exec(_) => s.cpu.Running?
    case Check => s.cpu.Running?
    case Query => s.cpu.Checked?
    case AckLock => s.cpu.Queried? && s.mutex == Free
    case Clear => s.cpu.AckLocked?
    case Unflag => s.cpu.Cleared?
    case AckUnlock => s.cpu.Unflagged?
    // task gates and 16-bit gates stop the emulator
    case Raise(gateType) => s.cpu.Acked? && gateType < 16 && gateType !in {0x5, 0x6, 0x7}
  }

  /** The pending number after a request, in uint8_t, with the priority test in int. */
  function Prioritised(intrNo: u8, irq: u8): u8
  {
    if intrNo == NO_INTR || irq > intrNo as int - IRQ_BASE then (irq as int + IRQ_BASE) % 0x100 else intrNo
  }

  function Apply(s: State, l: Label): State
    requires Enabled(s, l)
  {
    match l
    case Ask(d, irq) => s.(devices := s.devices[d := Waiting(irq)])
    case Lock(d) => s.(devices := s.devices[d := Locked(s.devices[d].irq)], mutex := HeldBy(d))
    case Store(d) =>
      var irq := s.devices[d].irq;
      s.(devices := s.devices[d := Stored(irq)], intrNo := Prioritised(s.intrNo, irq), pending := s.pending + {irq})
    case Flag(d) => s.(devices := s.devices[d := Flagged], intr := true)
    case Unlock(d) => s.(devices := s.devices[d := Resting], mutex := Free)
    case Exec(newIF) => s.(IF := newIF)
    case Check => if s.intr && s.IF then s.(cpu := Checked) else s
    case Query => if s.intrNo == NO_INTR then s.(failed := true) else s.(cpu := Queried(s.intrNo, s.pending))
    case AckLock => s.(cpu := AckLocked(s.cpu.no, s.cpu.seen), mutex := HeldByCpu)
    case Clear => s.(cpu := Cleared(s.cpu.no, s.cpu.seen), intrNo := NO_INTR, pending := {})
    case Unflag => s.(cpu := Unflagged(s.cpu.no, s.cpu.seen), intr := false)
    case AckUnlock => s.(cpu := Acked(s.cpu.no, s.cpu.seen), mutex := Free)
    case Raise(gateType) =>
      s.(cpu := Running, IF := s.IF && gateType != 0xe, log := s.log + [Delivery(s.cpu.no, s.cpu.seen)])
  }

  // ----- runs -----

  predicate Runs(s: State, ls: seq<Label>)
    decreases |ls|
  {
    ls == [] || (Enabled(s, ls[0]) && Runs(Apply(s, ls[0]), ls[1..]))
  }

  function After(s: State, ls: seq<Label>): State
    requires Runs(s, ls)
    decreases |ls|
  {
    if ls == [] then s else After(Apply(s, ls[0]), ls[1..])
  }

  /** Every request made in the run is one of irqs. */
  predicate Uses(ls: seq<Label>, irqs: set<u8>)
  {
    forall i :: 0 <= i < |ls| && ls[i].Ask? ==> ls[i].irq in irqs
  }

  // ----- the invariant -----

  /** The mutex is held by exactly the thread inside a critical section. */
  predicate MutexInv(s: State)
  {
    && (forall d :: 0 <= d < |s.devices| ==>
          (s.devices[d].Locked? || s.devices[d].Stored? || s.devices[d].Flagged? <==> s.mutex == HeldBy(d)))
    && (s.cpu.AckLocked? || s.cpu.Cleared? || s.cpu.Unflagged? <==> s.mutex == HeldByCpu)
  }

  predicate RequestsFrom(s: State, irqs: set<u8>)
  {
    forall d :: 0 <= d < |s.devices| && (s.devices[d].Waiting? || s.devices[d].Locked?) ==> s.devices[d].irq in irqs
  }

  /** A raised flag comes with a number, except between the two writes of an acknowledgement. */
  predicate FlagInv(s: State)
  {
    && (forall d :: 0 <= d < |s.devices| && (s.devices[d].Stored? || s.devices[d].Flagged?) ==> s.intrNo != NO_INTR)
    && (s.intr && !s.cpu.Cleared? ==> s.intrNo != NO_INTR)
    && (s.cpu.Checked? || s.cpu.Queried? || s.cpu.AckLocked? ==> s.intr)
  }

  predicate Inv(s: State, irqs: set<u8>)
  {
    MutexInv(s) && RequestsFrom(s, irqs) && FlagInv(s) && !s.failed
  }

  /** no is the number of the largest request in the set. */
  predicate Largest(no: u8, irqs: set<u8>)
  {
    no >= IRQ_BASE && no - IRQ_BASE in irqs && forall q :: q in irqs ==> q + IRQ_BASE as int <= no
  }

  predicate PriorityInv(s: State)
  {
    && (forall q :: q in s.pending ==> q < 223)
    && (if s.pending == {} then s.intrNo == NO_INTR else Largest(s.intrNo, s.pending))
    && (!s.cpu.Running? && !s.cpu.Checked? ==> Largest(s.cpu.no, s.cpu.seen))
    && (forall i :: 0 <= i < |s.log| ==> Largest(s.log[i].no, s.log[i].seen))
  }

  lemma InvStep(s: State, l: Label, irqs: set<u8>)
    requires Inv(s, irqs) && 223 !in irqs && Enabled(s, l) && (l.Ask? ==> l.irq in irqs)
    ensures Inv(Apply(s, l), irqs)
  {
  }

  lemma {:induction false} InvRun(s: State, ls: seq<Label>, irqs: set<u8>)
    requires Inv(s, irqs) && 223 !in irqs && Runs(s, ls) && Uses(ls, irqs)
    ensures Inv(After(s, ls), irqs)
    decreases |ls|
  {
    if ls != [] {
      InvStep(s, ls[0], irqs);
      InvRun(Apply(s, ls[0]), ls[1..], irqs);
    }
  }

  /** The assertion in do_intr can fail in some interleaving exactly when a device may raise
      request 223, whose number is the value that stands for no interrupt. */
  lemma AssertionHoldsIff(irqs: set<u8>)
    ensures (forall n: nat, ls: seq<Label> | Runs(Init(n), ls) && Uses(ls, irqs) :: !After(Init(n), ls).failed)
            <==> 223 !in irqs
  {
    if 223 in irqs {
      var ls := FailingRun();
      assert Uses(ls, irqs);
    } else {
      forall n: nat, ls: seq<Label> | Runs(Init(n), ls) && Uses(ls, irqs)
        ensures !After(Init(n), ls).failed
      {
        InvRun(Init(n), ls, irqs);
      }
    }
  }

  lemma FailingRun() returns (ls: seq<Label>)
    ensures Runs(Init(1), ls) && Uses(ls, {223}) && After(Init(1), ls).failed
  {
    var s := Requested(Init(1), 223);
    var s1 := Apply(s, Exec(true));
    var s2 := Apply(s1, Check);
    ls := Prepend(s2, Query, []);
    ls := Prepend(s1, Check, ls);
    ls := Prepend(s, Exec(true), ls);
    ls := RequestRun(Init(1), 223, ls);
  }

  lemma Prepend(s: State, l: Label, ls: seq<Label>) returns (all: seq<Label>)
    requires Enabled(s, l) && Runs(Apply(s, l), ls)
    ensures all == [l] + ls && Runs(s, all) && After(s, all) == After(Apply(s, l), ls)
  {
    all := [l] + ls;
    assert all[0] == l && all[1..] == ls;
  }

  // ----- priority -----

  lemma PriorityStep(s: State, l: Label, irqs: set<u8>)
    requires Inv(s, irqs) && PriorityInv(s) && (forall q :: q in irqs ==> q < 223) && Enabled(s, l)
    ensures PriorityInv(Apply(s, l))
  {
    if l.Store? {
      var irq := s.devices[l.d].irq;
      assert irq in s.pending + {irq};
      LargestOfMore(s.intrNo, s.pending, irq);
    }
  }

  lemma LargestOfMore(no: u8, pending: set<u8>, irq: u8)
    requires irq < 223 && forall q :: q in pending ==> q < 223
    requires if pending == {} then no == NO_INTR else Largest(no, pending)
    ensures Largest(Prioritised(no, irq), pending + {irq})
  {
  }

  lemma {:induction false} PriorityRun(s: State, ls: seq<Label>, irqs: set<u8>)
    requires Inv(s, irqs) && PriorityInv(s) && (forall q :: q in irqs ==> q < 223) && Runs(s, ls) && Uses(ls, irqs)
    ensures PriorityInv(After(s, ls))
    decreases |ls|
  {
    if ls != [] {
      InvStep(s, ls[0], irqs);
      PriorityStep(s, ls[0], irqs);
      PriorityRun(Apply(s, ls[0]), ls[1..], irqs);
    }
  }

  /** Every interrupt delivered is the largest request committed since the last clear, up to
      the moment the number was queried. */
  lemma LargestIsDelivered(n: nat, ls: seq<Label>, irqs: set<u8>, i: nat)
    requires Runs(Init(n), ls) && Uses(ls, irqs) && forall q :: q in irqs ==> q < 223
    requires i < |After(Init(n), ls).log|
    ensures var d := After(Init(n), ls).log[i]; Largest(d.no, d.seen)
  {
    InvRun(Init(n), ls, irqs);
    PriorityRun(Init(n), ls, irqs);
  }

  predicate AllLargest(s: State)
  {
    forall i :: 0 <= i < |s.log| ==> Largest(s.log[i].no, s.log[i].seen)
  }

  /** Priority holds in every interleaving exactly when all requests are below 223, whose number stands
      for no interrupt and above which numbers wrap around, or when 223 is the only one, which is never
      delivered at all. */
  lemma LargestIsDeliveredIff(irqs: set<u8>)
    ensures (forall n: nat, ls: seq<Label> | Runs(Init(n), ls) && Uses(ls, irqs) :: AllLargest(After(Init(n), ls)))
            <==> (forall q :: q in irqs ==> q < 223) || irqs <= {223}
  {
    hide Largest, Inv, PriorityInv;
    if q :| q in irqs && q > 223 {
      var ls := WrappedRun(q);
      assert Uses(ls, irqs);
    } else if 223 in irqs && !(irqs <= {223}) {
      var q :| q in irqs && q != 223;
      var ls := ForgottenRun(q);
      assert Uses(ls, irqs);
    } else {
      forall n: nat, ls: seq<Label> | Runs(Init(n), ls) && Uses(ls, irqs)
        ensures AllLargest(After(Init(n), ls))
      {
        if irqs <= {223} {
          NoneDelivered(Init(n), ls);
        } else {
          forall i | 0 <= i < |After(Init(n), ls).log|
            ensures Largest(After(Init(n), ls).log[i].no, After(Init(n), ls).log[i].seen)
          {
            LargestIsDelivered(n, ls, irqs, i);
          }
        }
      }
    }
  }

  /** With no request but 223 the number never changes and the CPU gets no further than the query. */
  predicate Blank(s: State)
  {
    && s.intrNo == NO_INTR && s.log == [] && (s.cpu.Running? || s.cpu.Checked?)
    && forall d :: 0 <= d < |s.devices| && (s.devices[d].Waiting? || s.devices[d].Locked?) ==> s.devices[d].irq == 223
  }

  lemma {:induction false} NoneDelivered(s: State, ls: seq<Label>)
    requires Blank(s) && Runs(s, ls) && Uses(ls, {223})
    ensures After(s, ls).log == []
    decreases |ls|
  {
    if ls != [] {
      assert ls[0].Ask? ==> ls[0].irq in {223};
      BlankStep(s, ls[0]);
      NoneDelivered(Apply(s, ls[0]), ls[1..]);
    }
  }

  lemma BlankStep(s: State, l: Label)
    requires Blank(s) && Enabled(s, l) && (l.Ask? ==> l.irq == 223)
    ensures Blank(Apply(s, l))
  {
  }

  /** A request past 223 is delivered as a number that wrapped around. */
  lemma WrappedRun(q: u8) returns (ls: seq<Label>)
    requires q > 223
    ensures Runs(Init(1), ls) && Uses(ls, {q}) && !AllLargest(After(Init(1), ls))
  {
    var s := Requested(Init(1), q);
    ls := DeliveryRun(s);
    var t := After(s, ls);
    assert t.log[0] == Delivery(q - 224, {q});
    ls := RequestRun(Init(1), q, ls);
  }

  /** Request 223 leaves no trace in the number, so that a smaller one after it is delivered first. */
  lemma ForgottenRun(q: u8) returns (ls: seq<Label>)
    requires q < 223
    ensures Runs(Init(1), ls) && Uses(ls, {223, q}) && !AllLargest(After(Init(1), ls))
  {
    var s := Requested(Init(1), 223);
    var s' := Requested(s, q);
    ls := DeliveryRun(s');
    var t := After(s', ls);
    assert t.log[0] == Delivery(q + 32, {223, q});
    assert 223 in t.log[0].seen;
    ls := RequestRun(s, q, ls);
    ls := RequestRun(Init(1), 223, ls);
  }

  /** The state after device 0 has made a request. */
  function Requested(s: State, q: u8): State
  {
    s.(intrNo := Prioritised(s.intrNo, q), pending := s.pending + {q}, intr := true)
  }

  /** The device's steps for a request, before the steps of a given run. */
  lemma RequestRun(s: State, q: u8, rest: seq<Label>) returns (ls: seq<Label>)
    requires s.devices == [Resting] && s.mutex == Free && !s.failed && Runs(Requested(s, q), rest)
    ensures Runs(s, ls) && After(s, ls) == After(Requested(s, q), rest)
    ensures forall irqs :: q in irqs && Uses(rest, irqs) ==> Uses(ls, irqs)
  {
    var s1 := Apply(s, Ask(0, q));
    var s2 := Apply(s1, Lock(0));
    var s3 := Apply(s2, Store(0));
    var s4 := Apply(s3, Flag(0));
    assert Apply(s4, Unlock(0)) == Requested(s, q);
    ls := Prepend(s4, Unlock(0), rest);
    ls := Prepend(s3, Flag(0), ls);
    ls := Prepend(s2, Store(0), ls);
    ls := Prepend(s1, Lock(0), ls);
    ls := Prepend(s, Ask(0, q), ls);
  }

  /** The CPU's steps that deliver the pending number. */
  lemma DeliveryRun(s: State) returns (ls: seq<Label>)
    requires s.cpu.Running? && s.mutex == Free && !s.failed && s.intr && s.intrNo != NO_INTR
    ensures Runs(s, ls) && Uses(ls, {}) && After(s, ls).log == s.log + [Delivery(s.intrNo, s.pending)]
  {
    ls := UnmaskedDelivery(Apply(s, Exec(true)), 0xe);
    ls := Prepend(s, Exec(true), ls);
  }

  // ----- masking -----

  /** While the CPU runs with IF clear and no instruction sets it, nothing is delivered. */
  lemma {:induction false} QuietWhileMasked(s: State, ls: seq<Label>)
    requires Runs(s, ls) && s.cpu.Running? && !s.IF
    requires forall i :: 0 <= i < |ls| ==> ls[i] != Exec(true)
    ensures var t := After(s, ls); t.cpu.Running? && !t.IF && t.log == s.log
    decreases |ls|
  {
    if ls != [] {
      assert ls[0] != Exec(true);
      QuietWhileMasked(Apply(s, ls[0]), ls[1..]);
    }
  }

  /** After a delivery through an interrupt gate, no further one happens before an
      instruction has set IF. */
  lemma MaskedAfterDelivery(s: State, ls: seq<Label>)
    requires s.cpu.Acked? && Enabled(s, Raise(0xe)) && Runs(Apply(s, Raise(0xe)), ls)
    requires |After(Apply(s, Raise(0xe)), ls).log| > |s.log| + 1
    ensures exists i :: 0 <= i < |ls| && ls[i] == Exec(true)
  {
    if forall i :: 0 <= i < |ls| ==> ls[i] != Exec(true) {
      QuietWhileMasked(Apply(s, Raise(0xe)), ls);
    }
  }

  /** With IF set a pending number is delivered without any instruction, and exactly an interrupt gate
      leaves IF clear behind it: through a trap gate the next number can follow at once. */
  lemma UnmaskedDelivery(s: State, gateType: nat) returns (ls: seq<Label>)
    requires s.cpu.Running? && s.mutex == Free && !s.failed && s.intr && s.intrNo != NO_INTR && s.IF
    requires gateType < 16 && gateType !in {0x5, 0x6, 0x7}
    ensures Runs(s, ls) && Uses(ls, {}) && forall i :: 0 <= i < |ls| ==> !ls[i].Exec?
    ensures After(s, ls).log == s.log + [Delivery(s.intrNo, s.pending)]
    ensures var t := After(s, ls); t.cpu.Running? && t.mutex == Free && !t.failed && (t.IF <==> gateType != 0xe)
  {
    var s1 := Apply(s, Check);
    var s2 := Apply(s1, Query);
    var s3 := Apply(s2, AckLock);
    var s4 := Apply(s3, Clear);
    var s5 := Apply(s4, Unflag);
    var s6 := Apply(s5, AckUnlock);
    ls := Prepend(s6, Raise(gateType), []);
    ls := Prepend(s5, AckUnlock, ls);
    ls := Prepend(s4, Unflag, ls);
    ls := Prepend(s3, Clear, ls);
    ls := Prepend(s2, AckLock, ls);
    ls := Prepend(s1, Query, ls);
    ls := Prepend(s, Check, ls);
  }
}
