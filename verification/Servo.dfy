/**
 servo.c: the pulse scheduler. One pass over the servos, sorted by position, fills the arrays that
 the timer interrupt then steps through. A port mask is modelled as the set of its pins.
 */
module ServoSchedule {
  datatype Servo = Servo(pos: int, offset: nat, gpio: nat, pin: nat)

  /** An output pin of a port. */
  datatype Pin = Pin(port: nat, pin: nat)

  /** One palClearPort call: pins of one port, all due at the same position. */
  datatype Entry = Entry(pos: nat, port: nat, mask: set<nat>, bits: nat)

  /** Entries in execution order, with the number of entries per interrupt and the position of each interrupt. */
  datatype Plan = Plan(entries: seq<Entry>, sizes: seq<nat>, positions: seq<nat>)

  function ActualPos(s: Servo): (p: nat)
    ensures p <= 255
  {
    var sum := s.pos + s.offset;
    if sum > 255 then 255 else if sum < 0 then 0 else sum
  }

  /** A position from 0 to 255 is taken as it is; of the others none is nearer to the one that is asked for. */
  lemma ActualPosNearest(s: Servo, q: nat)
    requires q <= 255
    ensures var sum, p := s.pos + s.offset, ActualPos(s);
      && (0 <= sum <= 255 ==> p == sum)
      && (if sum < p then p - sum else sum - p) <= (if sum < q then q - sum else sum - q)
  {
  }

  ghost predicate Sorted(s: seq<Servo>) {
    forall i, j :: 0 <= i < j < |s| ==> ActualPos(s[i]) <= ActualPos(s[j])
  }

  /** No two servos share an output pin. */
  ghost predicate DistinctPins(s: seq<Servo>) {
    forall i, j :: 0 <= i < j < |s| ==> s[i].gpio != s[j].gpio || s[i].pin != s[j].pin
  }

  function Single(x: Servo): Entry {
    Entry(ActualPos(x), x.gpio, {x.pin}, 1)
  }

  /** What taking one more servo, after servo y, does to the plan. */
  function Extend(p: Plan, y: Servo, x: Servo): Plan
    requires p.entries != [] && p.sizes != []
  {
    var k, i := |p.entries| - 1, |p.sizes| - 1;
    if ActualPos(x) != ActualPos(y) then
      Plan(p.entries + [Single(x)], p.sizes + [1], p.positions + [ActualPos(x)])
    else if x.gpio == y.gpio then
      var e := p.entries[k];
      p.(entries := p.entries[k := e.(mask := e.mask + {x.pin}, bits := e.bits + 1)])
    else
      p.(entries := p.entries + [Single(x)], sizes := p.sizes[i := p.sizes[i] + 1])
  }

  /** The plan for the first servos of the sorted list. */
  function PlanOf(s: seq<Servo>): (p: Plan)
    requires s != []
    ensures p.entries != [] && p.sizes != [] && |p.positions| == |p.sizes|
  {
    if |s| == 1 then Plan([Single(s[0])], [1], [ActualPos(s[0])])
    else Extend(PlanOf(s[..|s| - 1]), s[|s| - 2], s[|s| - 1])
  }

  // ----- what a plan means -----

  /** The positions at which a pin is cleared when the entries are executed. */
  function ClearedAt(entries: seq<Entry>, port: nat, pin: nat): seq<nat> {
    if entries == [] then []
    else
      var n := |entries| - 1;
      ClearedAt(entries[..n], port, pin) +
      if entries[n].port == port && pin in entries[n].mask then [entries[n].pos] else []
  }

  ghost predicate Drives(s: seq<Servo>, port: nat, pin: nat) {
    exists i :: 0 <= i < |s| && s[i].gpio == port && s[i].pin == pin
  }

  lemma ClearedAtLast(entries: seq<Entry>, e: Entry, port: nat, pin: nat)
    ensures ClearedAt(entries + [e], port, pin) ==
            ClearedAt(entries, port, pin) + if e.port == port && pin in e.mask then [e.pos] else []
  {
    assert (entries + [e])[..|entries|] == entries;
  }

  /** The last entry of the plan belongs to the last servo. */
  lemma {:induction false} LastEntry(s: seq<Servo>)
    requires s != []
    ensures var e, x := PlanOf(s).entries[|PlanOf(s).entries| - 1], s[|s| - 1];
      e.pos == ActualPos(x) && e.port == x.gpio && PlanOf(s).positions[|PlanOf(s).positions| - 1] == ActualPos(x)
  {
    hide ActualPos;
    if |s| > 1 {
      LastEntry(s[..|s| - 1]);
    }
  }

  /** Taking one more servo clears its pin once more, and changes nothing for other pins. */
  lemma ExtendClears(p: Plan, y: Servo, x: Servo, port: nat, pin: nat)
    requires p.entries != [] && p.sizes != []
    requires var e := p.entries[|p.entries| - 1]; e.pos == ActualPos(y) && e.port == y.gpio
    ensures port == x.gpio && pin == x.pin && ClearedAt(p.entries, port, pin) == [] ==>
      ClearedAt(Extend(p, y, x).entries, port, pin) == [ActualPos(x)]
    ensures !(port == x.gpio && pin == x.pin) ==>
      ClearedAt(Extend(p, y, x).entries, port, pin) == ClearedAt(p.entries, port, pin)
  {
    var k, q := |p.entries| - 1, Extend(p, y, x).entries;
    if ActualPos(x) == ActualPos(y) && x.gpio == y.gpio {
      assert p.entries == p.entries[..k] + [p.entries[k]] && q == p.entries[..k] + [q[k]];
      ClearedAtLast(p.entries[..k], p.entries[k], port, pin);
      ClearedAtLast(p.entries[..k], q[k], port, pin);
    } else {
      ClearedAtLast(p.entries, Single(x), port, pin);
    }
  }

  ghost predicate ClearedOnce(s: seq<Servo>, at: seq<nat>, port: nat, pin: nat) {
    exists i :: 0 <= i < |s| && s[i].gpio == port && s[i].pin == pin && at == [ActualPos(s[i])]
  }

  /** Each servo's pin is cleared exactly once, at the servo's position, and no other pin is cleared. */
  lemma {:induction false} ClearedExactlyOnce(s: seq<Servo>, port: nat, pin: nat)
    requires s != [] && DistinctPins(s)
    ensures Drives(s, port, pin) ==> ClearedOnce(s, ClearedAt(PlanOf(s).entries, port, pin), port, pin)
    ensures !Drives(s, port, pin) ==> ClearedAt(PlanOf(s).entries, port, pin) == []
  {
    hide Extend, ActualPos;
    var x := s[|s| - 1];
    if |s| == 1 {
      assert PlanOf(s).entries == [] + [Single(x)];
      ClearedAtLast([], Single(x), port, pin);
    } else {
      var t := s[..|s| - 1];
      ClearedExactlyOnce(t, port, pin);
      LastEntry(t);
      ExtendClears(PlanOf(t), s[|s| - 2], x, port, pin);
      if port == x.gpio && pin == x.pin {
        assert !Drives(t, port, pin);
      } else {
        assert Drives(s, port, pin) ==> Drives(t, port, pin);
        assert Drives(t, port, pin) ==> Drives(s, port, pin);
      }
    }
  }

  // ----- grouping -----

  /** Entries first..first+sizes[g]-1 are those of interrupt g, and all have its position. */
  ghost predicate Grouped(entries: seq<Entry>, sizes: seq<nat>, positions: seq<nat>)
    requires |sizes| == |positions|
    decreases |sizes|
  {
    if sizes == [] then entries == []
    else
      var n := |sizes| - 1;
      && 1 <= sizes[n] <= |entries|
      && (forall e :: |entries| - sizes[n] <= e < |entries| ==> entries[e].pos == positions[n])
      && Grouped(entries[..|entries| - sizes[n]], sizes[..n], positions[..n])
  }

  ghost function Total(sizes: seq<nat>): nat {
    if sizes == [] then 0 else Total(sizes[..|sizes| - 1]) + sizes[|sizes| - 1]
  }

  ghost function TotalBits(entries: seq<Entry>): nat {
    if entries == [] then 0 else TotalBits(entries[..|entries| - 1]) + entries[|entries| - 1].bits
  }

  /** The three ways in which the plan grows keep its grouping. */
  lemma NewGroup(p: Plan, e: Entry)
    requires |p.positions| == |p.sizes| && Grouped(p.entries, p.sizes, p.positions)
    ensures Grouped(p.entries + [e], p.sizes + [1], p.positions + [e.pos])
  {
    var n := |p.sizes|;
    assert (p.entries + [e])[..|p.entries|] == p.entries;
    assert (p.sizes + [1])[..n] == p.sizes && (p.positions + [e.pos])[..n] == p.positions;
  }

  lemma SameGroup(p: Plan, e: Entry)
    requires p.entries != [] && p.sizes != [] && |p.positions| == |p.sizes|
    requires Grouped(p.entries, p.sizes, p.positions) && p.positions[|p.positions| - 1] == e.pos
    ensures var i := |p.sizes| - 1; Grouped(p.entries + [e], p.sizes[i := p.sizes[i] + 1], p.positions)
  {
    var i := |p.sizes| - 1;
    var q, sizes := p.entries + [e], p.sizes[i := p.sizes[i] + 1];
    assert sizes[..i] == p.sizes[..i];
    assert q[..|q| - sizes[i]] == p.entries[..|p.entries| - p.sizes[i]];
  }

  lemma SameEntry(p: Plan, e: Entry)
    requires p.entries != [] && p.sizes != [] && |p.positions| == |p.sizes|
    requires Grouped(p.entries, p.sizes, p.positions) && p.entries[|p.entries| - 1].pos == e.pos
    ensures Grouped(p.entries[|p.entries| - 1 := e], p.sizes, p.positions)
  {
    var i, q := |p.sizes| - 1, p.entries[|p.entries| - 1 := e];
    assert q[..|q| - p.sizes[i]] == p.entries[..|p.entries| - p.sizes[i]];
  }

  lemma BitsOfLast(entries: seq<Entry>, e: Entry)
    ensures TotalBits(entries + [e]) == TotalBits(entries) + e.bits
    ensures entries != [] ==>
      TotalBits(entries[|entries| - 1 := e]) == TotalBits(entries) - entries[|entries| - 1].bits + e.bits
  {
    assert (entries + [e])[..|entries|] == entries;
    if entries != [] {
      var k := |entries| - 1;
      assert entries[k := e][..k] == entries[..k];
    }
  }

  lemma ExtendGrouped(p: Plan, y: Servo, x: Servo)
    requires p.entries != [] && p.sizes != [] && |p.positions| == |p.sizes|
    requires Grouped(p.entries, p.sizes, p.positions)
    requires p.positions[|p.positions| - 1] == ActualPos(y)
    ensures var q := Extend(p, y, x);
      && q.entries != [] && |q.positions| == |q.sizes|
      && Grouped(q.entries, q.sizes, q.positions) && TotalBits(q.entries) == TotalBits(p.entries) + 1
  {
    hide ActualPos, Grouped, TotalBits;
    var k := |p.entries| - 1;
    if ActualPos(x) != ActualPos(y) {
      NewGroup(p, Single(x));
      BitsOfLast(p.entries, Single(x));
    } else if x.gpio == y.gpio {
      var e := p.entries[k].(mask := p.entries[k].mask + {x.pin}, bits := p.entries[k].bits + 1);
      SameEntry(p, e);
      BitsOfLast(p.entries, e);
    } else {
      SameGroup(p, Single(x));
      BitsOfLast(p.entries, Single(x));
    }
  }

  lemma {:induction false} PlanGrouped(s: seq<Servo>)
    requires s != []
    ensures var p := PlanOf(s); Grouped(p.entries, p.sizes, p.positions) && TotalBits(p.entries) == |s|
  {
    hide Extend;
    if |s| > 1 {
      var t := s[..|s| - 1];
      PlanGrouped(t);
      LastEntry(t);
      ExtendGrouped(PlanOf(t), s[|s| - 2], s[|s| - 1]);
    } else {
      var e := PlanOf(s).entries;
      assert e[..0] == [] && PlanOf(s).sizes[..0] == [];
    }
  }

  /** With sorted servos the interrupts come at increasing positions. */
  lemma {:induction false} PositionsIncrease(s: seq<Servo>)
    requires s != [] && Sorted(s)
    ensures var p := PlanOf(s).positions; forall g, h :: 0 <= g < h < |p| ==> p[g] < p[h]
  {
    if |s| > 1 {
      var t := s[..|s| - 1];
      PositionsIncrease(t);
      LastEntry(t);
    }
  }

  /** Neighbouring servos of one port at one position share an entry. */
  lemma {:induction false} PlanMerged(s: seq<Servo>)
    requires s != []
    ensures var es := PlanOf(s).entries;
      forall e, f :: 0 <= e && f == e + 1 < |es| && es[e].pos == es[f].pos ==> es[e].port != es[f].port
  {
    if |s| > 1 {
      var t := s[..|s| - 1];
      PlanMerged(t);
      LastEntry(t);
    }
  }

  lemma {:induction false} PlanBound(s: seq<Servo>)
    requires s != []
    ensures |PlanOf(s).sizes| <= |PlanOf(s).entries| <= |s|
  {
    if |s| > 1 {
      PlanBound(s[..|s| - 1]);
    }
  }

  lemma PlanStep(s: seq<Servo>, j: nat)
    requires 1 <= j < |s|
    ensures PlanOf(s[..j + 1]) == Extend(PlanOf(s[..j]), s[j - 1], s[j])
  {
    hide Extend;
    assert s[..j + 1][..j] == s[..j];
  }

  lemma {:induction false} GroupAt(entries: seq<Entry>, sizes: seq<nat>, positions: seq<nat>, g: nat)
    requires |sizes| == |positions| && g < |sizes| && Grouped(entries, sizes, positions)
    ensures 1 <= sizes[g] && Total(sizes[..g]) + sizes[g] == Total(sizes[..g + 1]) <= Total(sizes) == |entries|
    ensures forall e :: Total(sizes[..g]) <= e < Total(sizes[..g + 1]) ==> entries[e].pos == positions[g]
  {
    var n := |sizes| - 1;
    var front := entries[..|entries| - sizes[n]];
    GroupTotal(front, sizes[..n], positions[..n]);
    if g == n {
      assert sizes[..g + 1] == sizes;
    } else {
      GroupAt(front, sizes[..n], positions[..n], g);
      assert sizes[..n][..g] == sizes[..g] && sizes[..n][..g + 1] == sizes[..g + 1];
    }
    assert sizes[..g + 1][..g] == sizes[..g];
  }

  lemma {:induction false} GroupTotal(entries: seq<Entry>, sizes: seq<nat>, positions: seq<nat>)
    requires |sizes| == |positions| && Grouped(entries, sizes, positions)
    ensures Total(sizes) == |entries|
  {
    if sizes != [] {
      var n := |sizes| - 1;
      GroupTotal(entries[..|entries| - sizes[n]], sizes[..n], positions[..n]);
    }
  }

  // ----- execution -----

  /** A palClearPort call, with the sum of the counter tops loaded since the start pulse. */
  datatype Clear = Clear(time: int, port: nat, mask: set<nat>)

  /** When a pin of a servo at this position is due. */
  function DueTime(start: int, factor: int, pos: nat): int {
    start + pos * factor
  }

  function Timed(entries: seq<Entry>, start: int, factor: int): (log: seq<Clear>)
    ensures |log| == |entries|
    ensures forall e :: 0 <= e < |entries| ==>
      log[e] == Clear(DueTime(start, factor, entries[e].pos), entries[e].port, entries[e].mask)
  {
    seq(|entries|, e requires 0 <= e < |entries| =>
      Clear(DueTime(start, factor, entries[e].pos), entries[e].port, entries[e].mask))
  }

  function ClearTimes(log: seq<Clear>, port: nat, pin: nat): seq<int> {
    if log == [] then []
    else
      var n := |log| - 1;
      ClearTimes(log[..n], port, pin) +
      if log[n].port == port && pin in log[n].mask then [log[n].time] else []
  }

  lemma {:induction false} TimedClears(entries: seq<Entry>, start: int, factor: int, port: nat, pin: nat)
    ensures var c, t := ClearedAt(entries, port, pin), ClearTimes(Timed(entries, start, factor), port, pin);
      |t| == |c| && forall i :: 0 <= i < |c| ==> t[i] == DueTime(start, factor, c[i])
  {
    hide DueTime;
    if entries != [] {
      var n := |entries| - 1;
      TimedClears(entries[..n], start, factor, port, pin);
      assert Timed(entries, start, factor)[..n] == Timed(entries[..n], start, factor);
    }
  }

  /** Of the pins that are high, those that stay so while the clears are carried out. */
  ghost function Remaining(high: set<Pin>, log: seq<Clear>): (r: set<Pin>)
    ensures forall x :: x in r <==> x in high && ClearTimes(log, x.port, x.pin) == []
  {
    set x | x in high && ClearTimes(log, x.port, x.pin) == []
  }

  lemma {:induction false} ClearTimesConcat(a: seq<Clear>, b: seq<Clear>, port: nat, pin: nat)
    ensures ClearTimes(a + b, port, pin) == ClearTimes(a, port, pin) + ClearTimes(b, port, pin)
    decreases |b|
  {
    if b == [] {
      assert a + b == a;
    } else {
      var n := |b| - 1;
      assert (a + b)[..|a| + n] == a + b[..n];
      ClearTimesConcat(a, b[..n], port, pin);
    }
  }

  lemma RemainingConcat(high: set<Pin>, a: seq<Clear>, b: seq<Clear>)
    ensures Remaining(high, a + b) == Remaining(Remaining(high, a), b)
    ensures Remaining(high, []) == high
  {
    hide ClearTimes;
    assert forall x: Pin :: ClearTimes([], x.port, x.pin) == [] by {
      NothingCleared();
    }
    forall x: Pin ensures x in Remaining(high, a + b) <==> x in Remaining(Remaining(high, a), b) {
      ClearTimesConcat(a, b, x.port, x.pin);
    }
  }

  lemma NothingCleared()
    ensures forall x: Pin :: ClearTimes([], x.port, x.pin) == []
  {
  }

  /** A palClearPort call takes its pins down. */
  lemma RemainingOne(high: set<Pin>, c: Clear)
    ensures Remaining(high, [c]) == set x | x in high && !(x.port == c.port && x.pin in c.mask)
  {
    forall x: Pin ensures ClearTimes([c], x.port, x.pin) == [] <==> !(x.port == c.port && x.pin in c.mask) {
      assert [c][..0] == [];
    }
  }

  /** The log of a cycle shows one clear per servo pin, on time, and none of any other pin. */
  ghost predicate OnTime(s: seq<Servo>, log: seq<Clear>, start: int, factor: int) {
    && (forall i :: 0 <= i < |s| ==> ClearTimes(log, s[i].gpio, s[i].pin) == [DueTime(start, factor, ActualPos(s[i]))])
    && (forall port, pin :: !Drives(s, port, pin) ==> ClearTimes(log, port, pin) == [])
  }

  /** The same written out: start offset plus position times factor, for each servo. */
  lemma OnTimeIs(s: seq<Servo>, log: seq<Clear>, start: int, factor: int, i: nat)
    requires OnTime(s, log, start, factor) && i < |s|
    ensures ClearTimes(log, s[i].gpio, s[i].pin) == [start + ActualPos(s[i]) * factor]
  {
    hide ClearTimes, ActualPos;
  }

  lemma PlanOnTime(s: seq<Servo>, start: int, factor: int)
    requires s != [] && DistinctPins(s)
    ensures OnTime(s, Timed(PlanOf(s).entries, start, factor), start, factor)
  {
    hide PlanOf, Timed, ActualPos, ClearTimes, ClearedAt, DueTime;
    var entries := PlanOf(s).entries;
    forall i | 0 <= i < |s|
      ensures ClearTimes(Timed(entries, start, factor), s[i].gpio, s[i].pin) ==
              [DueTime(start, factor, ActualPos(s[i]))]
    {
      assert Drives(s, s[i].gpio, s[i].pin);
      ClearedExactlyOnce(s, s[i].gpio, s[i].pin);
      TimedClears(entries, start, factor, s[i].gpio, s[i].pin);
      var k :| 0 <= k < |s| && s[k].gpio == s[i].gpio && s[k].pin == s[i].pin &&
        ClearedAt(entries, s[i].gpio, s[i].pin) == [ActualPos(s[k])];
      assert k == i;
    }
    forall port, pin | !Drives(s, port, pin) ensures ClearTimes(Timed(entries, start, factor), port, pin) == [] {
      ClearedExactlyOnce(s, port, pin);
      TimedClears(entries, start, factor, port, pin);
    }
  }

  // ----- the code -----

  class Driver {
    const servosNum: nat
    const startOffset: int
    const cpuFactor: int
    const cooldown: int
    const delays: array<int>
    const samePos: array<nat>
    const sameBits: array<nat>
    const masks: array<set<nat>>
    const ports: array<nat>
    var length: nat
    var intIndex: int
    var servoIntIndex: nat
    var masksPortsIndex: nat
    /** SERVO_CNT_TOP. */
    var cntTop: int
    /** Counter tops that have run out since the start pulse, and the pins cleared so far. */
    var elapsed: int
    var log: seq<Clear>
    /** The pins that are high. */
    var high: set<Pin>

    constructor (servosNum: nat, startOffset: int, cpuFactor: int, cooldown: int)
      requires 1 <= servosNum <= 127
      ensures Shape() && this.servosNum == servosNum && this.startOffset == startOffset && this.cpuFactor == cpuFactor
      ensures this.cooldown == cooldown
      ensures fresh(delays) && fresh(samePos) && fresh(sameBits) && fresh(masks) && fresh(ports) && log == []
      ensures high == {}
    {
      this.servosNum, this.startOffset, this.cpuFactor, this.cooldown := servosNum, startOffset, cpuFactor, cooldown;
      delays := new int[servosNum + 1](i => 0);
      samePos := new nat[servosNum + 1](i => 0);
      sameBits := new nat[servosNum + 1](i => 0);
      masks := new set<nat>[servosNum](i => {});
      ports := new nat[servosNum](i => 0);
      length, intIndex, servoIntIndex, masksPortsIndex, cntTop, elapsed, log := 0, 0, 0, 0, 0, 0, [];
      high := {};
    }

    /** signed char indices limit the number of servos to 127. */
    ghost predicate Shape() {
      && 1 <= servosNum <= 127
      && delays.Length == samePos.Length == sameBits.Length == servosNum + 1
      && masks.Length == ports.Length == servosNum
      && samePos != sameBits && samePos != ports && sameBits != ports
    }

    ghost function Delay(positions: seq<nat>, g: nat): int
      requires g < |positions|
    {
      (if g == 0 then positions[0] else positions[g] - positions[g - 1]) * cpuFactor
    }

    /** The entries of the plan are in masks, ports and same_bits; unused counts are 1. */
    ghost predicate HasEntries(p: Plan)
      requires Shape()
      reads masks, ports, sameBits
    {
      && |p.entries| <= servosNum
      && (forall m :: 0 <= m < |p.entries| ==>
            masks[m] == p.entries[m].mask && ports[m] == p.entries[m].port && sameBits[m] == p.entries[m].bits)
      && (forall m :: |p.entries| <= m <= servosNum ==> sameBits[m] == 1)
    }

    /** The sizes and positions of the plan are in same_pos and delays. */
    ghost predicate HasGroups(p: Plan)
      requires Shape()
      reads samePos, delays
    {
      && |p.sizes| == |p.positions| <= servosNum
      && (forall g :: 0 <= g < |p.sizes| ==> samePos[g] == p.sizes[g] && delays[g] == Delay(p.positions, g))
      && (forall g :: |p.sizes| <= g <= servosNum ==> samePos[g] == 1)
    }

    /**
     The inner while loop: servos at the position of the one before them. As in the source, the loop
     condition reads the entry at j before it compares j with the number of servos: `beyond` is whatever
     follows the array, and `furthest` the last index read.
     */
    method TakeSamePosition(sorted: seq<Servo>, beyond: Servo, i: nat, j0: nat, k0: nat)
      returns (j: nat, k: nat, ghost furthest: nat)
      requires Shape() && |sorted| == servosNum && 1 <= j0 <= servosNum
      requires HasEntries(PlanOf(sorted[..j0])) && HasGroups(PlanOf(sorted[..j0]))
      requires k0 == |PlanOf(sorted[..j0]).entries| - 1 && i == |PlanOf(sorted[..j0]).sizes| - 1
      modifies masks, ports, sameBits, samePos
      ensures j0 <= j <= servosNum && (j < servosNum ==> ActualPos(sorted[j]) != ActualPos(sorted[j - 1]))
      ensures HasEntries(PlanOf(sorted[..j])) && HasGroups(PlanOf(sorted[..j]))
      ensures k == |PlanOf(sorted[..j]).entries| - 1 && i == |PlanOf(sorted[..j]).sizes| - 1
      ensures furthest == j
    {
      hide PlanOf, ActualPos, Delay, HasEntries, HasGroups;
      j, k, furthest := j0, k0, j0;
      while ActualPos(if j < servosNum then sorted[j] else beyond) == ActualPos(sorted[j - 1]) && j < servosNum
        invariant j0 <= j == furthest <= servosNum
        invariant HasEntries(PlanOf(sorted[..j])) && HasGroups(PlanOf(sorted[..j]))
        invariant k == |PlanOf(sorted[..j]).entries| - 1 && i == |PlanOf(sorted[..j]).sizes| - 1
        decreases servosNum - j
      {
        k := TakeOne(sorted, i, j, k);
        j := j + 1;
        furthest := j;
      }
    }

    /** The body of that loop: the servo shares a mask with the one before it, or gets an entry of its own. */
    method TakeOne(sorted: seq<Servo>, i: nat, j: nat, k0: nat) returns (k: nat)
      requires Shape() && |sorted| == servosNum && 1 <= j < servosNum
      requires ActualPos(sorted[j]) == ActualPos(sorted[j - 1])
      requires HasEntries(PlanOf(sorted[..j])) && HasGroups(PlanOf(sorted[..j]))
      requires k0 == |PlanOf(sorted[..j]).entries| - 1 && i == |PlanOf(sorted[..j]).sizes| - 1
      modifies masks, ports, sameBits, samePos
      ensures HasEntries(PlanOf(sorted[..j + 1])) && HasGroups(PlanOf(sorted[..j + 1]))
      ensures k == |PlanOf(sorted[..j + 1]).entries| - 1 && i == |PlanOf(sorted[..j + 1]).sizes| - 1
    {
      hide PlanOf, ActualPos, Delay;
      k := k0;
      PlanStep(sorted, j);
      PlanBound(sorted[..j + 1]);
      if sorted[j].gpio == sorted[j - 1].gpio {
        masks[k] := masks[k] + {sorted[j].pin};
        sameBits[k] := sameBits[k] + 1;
      } else {
        samePos[i] := samePos[i] + 1;
        k := k + 1;
        ports[k] := sorted[j].gpio;
        masks[k] := {sorted[j].pin};
      }
    }

    /** The first for loop: every count starts at 1. */
    method ResetCounts()
      requires Shape()
      modifies samePos, sameBits
      ensures forall g :: 0 <= g <= servosNum ==> samePos[g] == 1 && sameBits[g] == 1
    {
      var i := 0;
      while i <= servosNum
        invariant 0 <= i <= servosNum + 1
        invariant forall g :: 0 <= g < i ==> samePos[g] == 1 && sameBits[g] == 1
      {
        samePos[i] := 1;
        sameBits[i] := 1;
        i := i + 1;
      }
    }

    /** The step to the next position; i and k are the indices of the new group and entry. */
    method OpenGroup(sorted: seq<Servo>, i: nat, j: nat, k: nat)
      requires Shape() && |sorted| == servosNum && 1 <= j < servosNum
      requires ActualPos(sorted[j]) != ActualPos(sorted[j - 1])
      requires HasEntries(PlanOf(sorted[..j])) && HasGroups(PlanOf(sorted[..j]))
      requires k == |PlanOf(sorted[..j]).entries| && i == |PlanOf(sorted[..j]).sizes|
      modifies masks, ports, delays
      ensures HasEntries(PlanOf(sorted[..j + 1])) && HasGroups(PlanOf(sorted[..j + 1]))
      ensures k == |PlanOf(sorted[..j + 1]).entries| - 1 && i == |PlanOf(sorted[..j + 1]).sizes| - 1
    {
      hide PlanOf, ActualPos;
      NextGroup(sorted, j);
      delays[i] := (ActualPos(sorted[j]) - ActualPos(sorted[j - 1])) * cpuFactor;
      ports[k] := sorted[j].gpio;
      masks[k] := {sorted[j].pin};
    }

    /**
     The part of servo_thread that prepares the next cycle from the sorted copy of the servos. Every run
     ends with a read one past the end of the copy, which has no influence on the result.
     */
    method BuildSchedule(sorted: seq<Servo>, beyond: Servo) returns (ghost furthest: nat)
      requires Shape() && |sorted| == servosNum
      modifies this`servoIntIndex, this`masksPortsIndex, this`length, this`intIndex
      modifies delays, masks, ports, sameBits, samePos
      ensures HasEntries(PlanOf(sorted)) && HasGroups(PlanOf(sorted))
      ensures length == |PlanOf(sorted).sizes| <= servosNum
      ensures delays[length] == ActualPos(sorted[servosNum - 1]) * cpuFactor + 120
      ensures servoIntIndex == 0 && masksPortsIndex == 0 && intIndex == -1
      ensures furthest == servosNum
    {
      hide PlanOf, ActualPos, HasEntries;
      servoIntIndex, masksPortsIndex := 0, 0;
      delays[0] := ActualPos(sorted[0]) * cpuFactor;
      masks[0] := {sorted[0].pin};
      ports[0] := sorted[0].gpio;
      ResetCounts();
      StartPlan(sorted);
      var i, j, k := 0, 1, 0;
      while true
        invariant 1 <= j <= servosNum && servoIntIndex == 0 && masksPortsIndex == 0
        invariant HasEntries(PlanOf(sorted[..j])) && HasGroups(PlanOf(sorted[..j]))
        invariant k == |PlanOf(sorted[..j]).entries| - 1 && i == |PlanOf(sorted[..j]).sizes| - 1
        decreases servosNum - j
      {
        j, k, furthest := TakeSamePosition(sorted, beyond, i, j, k);
        i := i + 1;
        if j < servosNum {
          k := k + 1;
          OpenGroup(sorted, i, j, k);
          j := j + 1;
        } else {
          break;
        }
      }
      assert sorted[..j] == sorted;
      delays[i] := ActualPos(sorted[servosNum - 1]) * cpuFactor + 120;
      length := i;
      intIndex := -1;
    }

    /** The arrays before the loop hold the plan of the first servo. */
    lemma StartPlan(sorted: seq<Servo>)
      requires Shape() && |sorted| == servosNum
      requires delays[0] == ActualPos(sorted[0]) * cpuFactor
      requires masks[0] == {sorted[0].pin} && ports[0] == sorted[0].gpio
      requires forall g :: 0 <= g <= servosNum ==> samePos[g] == 1 && sameBits[g] == 1
      ensures HasEntries(PlanOf(sorted[..1])) && HasGroups(PlanOf(sorted[..1]))
      ensures |PlanOf(sorted[..1]).entries| == 1 && |PlanOf(sorted[..1]).sizes| == 1
    {
      FirstPlan(sorted);
    }

    lemma FirstPlan(sorted: seq<Servo>)
      requires sorted != []
      ensures PlanOf(sorted[..1]) == Plan([Single(sorted[0])], [1], [ActualPos(sorted[0])])
    {
    }

    lemma NextGroup(sorted: seq<Servo>, j: nat)
      requires 1 <= j < |sorted| && ActualPos(sorted[j]) != ActualPos(sorted[j - 1])
      ensures var p, q := PlanOf(sorted[..j]), PlanOf(sorted[..j + 1]);
        && q == Plan(p.entries + [Single(sorted[j])], p.sizes + [1], p.positions + [ActualPos(sorted[j])])
        && p.positions[|p.positions| - 1] == ActualPos(sorted[j - 1])
        && |q.sizes| <= |q.entries| <= |sorted|
    {
      PlanStep(sorted, j);
      LastEntry(sorted[..j]);
      PlanBound(sorted[..j + 1]);
    }

    /** The while loop of servo_irq: clears the pins of all entries of this interrupt. */
    method EndPulses(ghost p: Plan, i: nat)
      requires Shape() && HasEntries(p) && i <= servosNum && masksPortsIndex + samePos[i] <= |p.entries|
      modifies this`servoIntIndex, this`masksPortsIndex, this`log, this`high, samePos
      ensures masksPortsIndex == old(masksPortsIndex) + old(samePos[i])
      ensures log == old(log) + ClearsOf(p, old(masksPortsIndex), masksPortsIndex, elapsed)
      ensures high == Remaining(old(high), ClearsOf(p, old(masksPortsIndex), masksPortsIndex, elapsed))
      ensures servoIntIndex + TotalBits(p.entries[..old(masksPortsIndex)]) ==
              old(servoIntIndex) + TotalBits(p.entries[..masksPortsIndex])
      ensures forall g :: 0 <= g <= servosNum && g != i ==> samePos[g] == old(samePos[g])
    {
      hide TotalBits, Remaining, ClearTimes;
      RemainingConcat(high, [], []);
      while samePos[i] != 0
        invariant old(masksPortsIndex) <= masksPortsIndex
        invariant masksPortsIndex + samePos[i] == old(masksPortsIndex) + old(samePos[i])
        invariant log == old(log) + ClearsOf(p, old(masksPortsIndex), masksPortsIndex, elapsed)
        invariant high == Remaining(old(high), ClearsOf(p, old(masksPortsIndex), masksPortsIndex, elapsed))
        invariant servoIntIndex + TotalBits(p.entries[..old(masksPortsIndex)]) ==
                  old(servoIntIndex) + TotalBits(p.entries[..masksPortsIndex])
        invariant forall g :: 0 <= g <= servosNum && g != i ==> samePos[g] == old(samePos[g])
        decreases samePos[i]
      {
        samePos[i] := samePos[i] - 1;
        ClearPort(ports[masksPortsIndex], masks[masksPortsIndex]);
        ghost var done := ClearsOf(p, old(masksPortsIndex), masksPortsIndex, elapsed);
        RemainingConcat(old(high), done, [log[|log| - 1]]);
        assert done + [log[|log| - 1]] == ClearsOf(p, old(masksPortsIndex), masksPortsIndex + 1, elapsed);
        BitsLast(p.entries, masksPortsIndex);
        servoIntIndex := servoIntIndex + sameBits[masksPortsIndex];
        masksPortsIndex := masksPortsIndex + 1;
      }
      // The post-decrement that ends the loop wraps the unsigned char.
      samePos[i] := 255;
    }

    /** palClearPort. */
    method ClearPort(port: nat, mask: set<nat>)
      modifies this`log, this`high
      ensures log == old(log) + [Clear(elapsed, port, mask)]
      ensures high == Remaining(old(high), [Clear(elapsed, port, mask)])
      ensures forall x :: x in high <==> x in old(high) && !(x.port == port && x.pin in mask)
    {
      RemainingOne(high, Clear(elapsed, port, mask));
      log := log + [Clear(elapsed, port, mask)];
      high := set x | x in high && !(x.port == port && x.pin in mask);
    }

    /** servo_start_pulse. */
    method StartPulse(servos: seq<Servo>)
      modifies this`high
      ensures forall x :: x in high <==> x in old(high) || Drives(servos, x.port, x.pin)
    {
      var i := 0;
      while i < |servos|
        invariant 0 <= i <= |servos|
        invariant forall x :: x in high <==> x in old(high) || Drives(servos[..i], x.port, x.pin)
      {
        high := high + {Pin(servos[i].gpio, servos[i].pin)};
        DrivesOneMore(servos, i);
        i := i + 1;
      }
      assert servos[..i] == servos;
    }

    lemma DrivesOneMore(servos: seq<Servo>, i: nat)
      requires i < |servos|
      ensures forall x: Pin :: Drives(servos[..i + 1], x.port, x.pin) <==>
        Drives(servos[..i], x.port, x.pin) || x == Pin(servos[i].gpio, servos[i].pin)
    {
      assert servos[..i + 1] == servos[..i] + [servos[i]];
      forall x: Pin ensures Drives(servos[..i + 1], x.port, x.pin) <==>
        Drives(servos[..i], x.port, x.pin) || x == Pin(servos[i].gpio, servos[i].pin)
      {
        if x == Pin(servos[i].gpio, servos[i].pin) {
          assert servos[..i + 1][i] == servos[i];
        } else if Drives(servos[..i], x.port, x.pin) {
          var k :| 0 <= k < i && servos[..i][k].gpio == x.port && servos[..i][k].pin == x.pin;
          assert servos[..i + 1][k] == servos[..i][k];
        }
      }
    }

    /** servo_irq: the start of a pulse, the end of some pulses, or the cool-down. */
    method Irq(servos: seq<Servo>, ghost p: Plan)
      requires Shape() && HasEntries(p) && length <= servosNum && -1 <= intIndex <= length
      requires 0 <= intIndex < length ==> masksPortsIndex + samePos[intIndex] <= |p.entries|
      modifies this`intIndex, this`cntTop, this`servoIntIndex, this`masksPortsIndex, this`elapsed, this`log, this`high
      modifies samePos
      ensures old(intIndex) < 0 ==> forall x :: x in high <==> x in old(high) || Drives(servos, x.port, x.pin)
      ensures old(intIndex) < 0 ==>
        intIndex == 0 && elapsed == 0 && cntTop == startOffset + delays[0] && samePos[..] == old(samePos[..])
      ensures !(0 <= old(intIndex) < length) ==>
        log == old(log) && masksPortsIndex == old(masksPortsIndex) && servoIntIndex == old(servoIntIndex)
      ensures old(intIndex) == length ==> intIndex == length && cntTop == cooldown && high == old(high)
      ensures 0 <= old(intIndex) < length ==>
        && intIndex == old(intIndex) + 1 && cntTop == delays[intIndex] && elapsed == old(elapsed) + old(cntTop)
        && masksPortsIndex == old(masksPortsIndex) + old(samePos[intIndex])
        && log == old(log) + ClearsOf(p, old(masksPortsIndex), masksPortsIndex, elapsed)
        && high == Remaining(old(high), ClearsOf(p, old(masksPortsIndex), masksPortsIndex, elapsed))
        && servoIntIndex + TotalBits(p.entries[..old(masksPortsIndex)]) ==
           old(servoIntIndex) + TotalBits(p.entries[..masksPortsIndex])
      ensures forall g :: 0 <= g <= servosNum && g != old(intIndex) ==> samePos[g] == old(samePos[g])
    {
      hide TotalBits, Remaining, ClearTimes, Drives;
      if intIndex < 0 {
        StartPulse(servos);
        elapsed := 0;
        cntTop := startOffset + delays[0];
        intIndex := 0;
        return;
      }
      elapsed := elapsed + cntTop;
      if intIndex == length {
        cntTop := cooldown;
        return;
      }
      EndPulses(p, intIndex);
      intIndex := intIndex + 1;
      cntTop := delays[intIndex];
    }

    lemma DelaySum(positions: seq<nat>, g: nat)
      requires g < |positions|
      ensures g == 0 ==> startOffset + Delay(positions, 0) == DueTime(startOffset, cpuFactor, positions[0])
      ensures g > 0 ==>
        DueTime(startOffset, cpuFactor, positions[g - 1]) + Delay(positions, g) ==
        DueTime(startOffset, cpuFactor, positions[g])
    {
    }

    lemma DelayPositive(positions: seq<nat>, g: nat)
      requires g < |positions| && cpuFactor > 0
      requires g > 0 ==> positions[g - 1] < positions[g]
      ensures Delay(positions, g) >= 0 && (g > 0 ==> Delay(positions, g) > 0)
    {
    }

    /** The clears of interrupt g are the due ones of its group. */
    lemma GroupClears(p: Plan, g: nat, time: int)
      requires |p.sizes| == |p.positions| && g < |p.sizes| && Grouped(p.entries, p.sizes, p.positions)
      requires time == DueTime(startOffset, cpuFactor, p.positions[g])
      ensures Total(p.sizes[..g + 1]) == Total(p.sizes[..g]) + p.sizes[g] <= |p.entries|
      ensures var all := Timed(p.entries, startOffset, cpuFactor);
        all[..Total(p.sizes[..g])] + ClearsOf(p, Total(p.sizes[..g]), Total(p.sizes[..g + 1]), time)
        == all[..Total(p.sizes[..g + 1])]
    {
      hide DueTime, Grouped;
      GroupAt(p.entries, p.sizes, p.positions, g);
    }

    /** Between two interrupts of a cycle: what has been cleared so far, and when the next interrupt is due. */
    ghost predicate InCycle(p: Plan, before: seq<Clear>, pulses: set<Pin>)
      requires Shape()
      reads this, delays, masks, ports, sameBits, samePos
    {
      && 0 <= intIndex <= length == |p.sizes| == |p.positions| <= servosNum && HasEntries(p)
      && (forall g :: intIndex <= g < length ==> samePos[g] == p.sizes[g])
      && (forall g :: 0 <= g < length ==> delays[g] == Delay(p.positions, g))
      && (intIndex < length ==> elapsed + cntTop == DueTime(startOffset, cpuFactor, p.positions[intIndex]))
      && masksPortsIndex == Total(p.sizes[..intIndex]) <= |p.entries|
      && servoIntIndex == TotalBits(p.entries[..masksPortsIndex])
      && log == before + Timed(p.entries, startOffset, cpuFactor)[..masksPortsIndex]
      && high == Remaining(pulses, Timed(p.entries, startOffset, cpuFactor)[..masksPortsIndex])
    }

    /** One interrupt that ends pulses. */
    method NextInterrupt(servos: seq<Servo>, ghost p: Plan, ghost before: seq<Clear>, ghost pulses: set<Pin>)
      requires Shape() && InCycle(p, before, pulses) && intIndex < length && Grouped(p.entries, p.sizes, p.positions)
      modifies this`intIndex, this`cntTop, this`servoIntIndex, this`masksPortsIndex, this`elapsed, this`log, this`high
      modifies samePos
      ensures InCycle(p, before, pulses) && intIndex == old(intIndex) + 1
    {
      hide Delay, DueTime, Timed, ClearsOf, Total, Grouped, TotalBits, Remaining, ClearTimes, Drives;
      GroupClears(p, intIndex, elapsed + cntTop);
      RemainingConcat(pulses, Timed(p.entries, startOffset, cpuFactor)[..masksPortsIndex],
                      ClearsOf(p, masksPortsIndex, Total(p.sizes[..intIndex + 1]), elapsed + cntTop));
      if intIndex + 1 < length {
        DelaySum(p.positions, intIndex + 1);
      }
      Irq(servos, p);
    }

    /**
     One whole cycle: the schedule is built, the pulse is started, and the interrupt runs until the
     cool-down. Every servo pin is cleared exactly once, exactly when it is due, and none is left high.
     The start pulse goes through the servos themselves, of which `sorted` is the sorted copy.
     */
    method RunCycle(servos: seq<Servo>, sorted: seq<Servo>, beyond: Servo)
      requires Shape() && |sorted| == servosNum && Sorted(sorted) && DistinctPins(sorted) && cpuFactor > 0
      requires forall port, pin :: Drives(servos, port, pin) <==> Drives(sorted, port, pin)
      modifies this, delays, masks, ports, sameBits, samePos
      ensures old(log) <= log && OnTime(sorted, log[|old(log)|..], startOffset, cpuFactor)
      ensures forall i :: 0 <= i < |sorted| ==>
        ClearTimes(log[|old(log)|..], sorted[i].gpio, sorted[i].pin) == [startOffset + ActualPos(sorted[i]) * cpuFactor]
      ensures forall x :: x in high <==> x in old(high) && !Drives(sorted, x.port, x.pin)
      ensures intIndex == length <= servosNum && servoIntIndex == servosNum
      ensures forall g :: 0 <= g <= length ==> delays[g] >= 0
    {
      hide PlanOf, ActualPos, Delay, DueTime, Timed, ClearsOf, Total, Grouped, TotalBits;
      hide OnTime, Remaining, ClearTimes, Drives;
      var _ := BuildSchedule(sorted, beyond);
      ghost var p := PlanOf(sorted);
      ghost var all := Timed(p.entries, startOffset, cpuFactor);
      ghost var before := log;
      PlanGrouped(sorted);
      CycleStart(p);
      Irq(servos, p);
      ghost var pulses := high;
      RemainingConcat(pulses, [], []);
      DelaySum(p.positions, 0);
      assert before + all[..0] == before;
      FollowCycle(servos, p, before, pulses);
      CycleEnd(p);
      PlanOnTime(sorted, startOffset, cpuFactor);
      assert all[..|all|] == all && log[|before|..] == all;
      AllDown(sorted, log[|before|..], pulses);
      forall i | 0 <= i < |sorted|
        ensures ClearTimes(log[|before|..], sorted[i].gpio, sorted[i].pin) ==
                [startOffset + ActualPos(sorted[i]) * cpuFactor]
      {
        OnTimeIs(sorted, log[|before|..], startOffset, cpuFactor, i);
      }
      PositionsIncrease(sorted);
      LastDelay(ActualPos(sorted[servosNum - 1]));
      forall g | 0 <= g < length ensures delays[g] >= 0 {
        DelayPositive(p.positions, g);
      }
    }

    /** After the clears of a cycle exactly the servo pins have come down. */
    lemma AllDown(sorted: seq<Servo>, all: seq<Clear>, pulses: set<Pin>)
      requires OnTime(sorted, all, startOffset, cpuFactor)
      ensures forall x :: x in Remaining(pulses, all) <==> x in pulses && !Drives(sorted, x.port, x.pin)
    {
      hide ClearTimes, DueTime, ActualPos;
    }

    /** The interrupts of a cycle after its start pulse. */
    method FollowCycle(servos: seq<Servo>, ghost p: Plan, ghost before: seq<Clear>, ghost pulses: set<Pin>)
      requires Shape() && InCycle(p, before, pulses) && Grouped(p.entries, p.sizes, p.positions)
      modifies this`intIndex, this`cntTop, this`servoIntIndex, this`masksPortsIndex, this`elapsed, this`log, this`high
      modifies samePos
      ensures InCycle(p, before, pulses) && intIndex == length
    {
      while intIndex < length
        invariant InCycle(p, before, pulses)
        decreases length - intIndex
      {
        NextInterrupt(servos, p, before, pulses);
      }
    }

    lemma LastDelay(pos: nat)
      requires cpuFactor > 0
      ensures pos * cpuFactor + 120 >= 0
    {
    }

    lemma CycleStart(p: Plan)
      requires |p.sizes| == |p.positions| && p.sizes != [] && Grouped(p.entries, p.sizes, p.positions)
      ensures Total(p.sizes[..0]) == 0 && TotalBits(p.entries[..0]) == 0
      ensures p.sizes[0] <= |p.entries|
    {
      GroupAt(p.entries, p.sizes, p.positions, 0);
    }

    lemma CycleEnd(p: Plan)
      requires |p.sizes| == |p.positions| && Grouped(p.entries, p.sizes, p.positions)
      ensures Total(p.sizes[..|p.sizes|]) == |p.entries| && p.entries[..|p.entries|] == p.entries
    {
      GroupTotal(p.entries, p.sizes, p.positions);
      assert p.sizes[..|p.sizes|] == p.sizes;
    }
  }

  function ClearsOf(p: Plan, from: nat, to: nat, time: int): (log: seq<Clear>)
    requires from <= to <= |p.entries|
    ensures |log| == to - from
    ensures forall e :: from <= e < to ==> log[e - from] == Clear(time, p.entries[e].port, p.entries[e].mask)
  {
    seq(to - from, e requires 0 <= e < to - from =>
      Clear(time, p.entries[from + e].port, p.entries[from + e].mask))
  }

  lemma BitsLast(entries: seq<Entry>, m: nat)
    requires m < |entries|
    ensures TotalBits(entries[..m + 1]) == TotalBits(entries[..m]) + entries[m].bits
  {
    assert entries[..m + 1][..m] == entries[..m];
  }
}
