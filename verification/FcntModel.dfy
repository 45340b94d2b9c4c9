/**
 The LoRaWAN uplink frame counters: four table slots and one fallback identity,
 each caching a counter whose reservation is kept in flash under its DevAddr.
 */
module FcntModel {
  import opened Bytes
  import opened Reservation

  const MAX_DEVICES := 4
  const EXT := 4                       // index of the fallback identity among the holders
  const FCNT_RESERVE: u32 := 32
  const FCNT_INVALID: u32 := 0xFFFF_FFFF

  /** A cached counter and the DevAddr it belongs to; address 0 means nothing is held. */
  datatype Slot = Slot(addr: u32, ctr: Counter)

  const EMPTY := Slot(0, Counter(0, 0))

  /** RAM holders (slots 0..3, then the fallback), flash reservations, saved table. */
  datatype State = State(holders: seq<Slot>, nvs: map<u32, u32>, table: seq<u32>)

  ghost predicate Shaped(s: State) {
    |s.holders| == MAX_DEVICES + 1 && |s.table| == MAX_DEVICES
  }

  const FRESH := State(seq(5, _ => EMPTY), map[], seq(4, _ => 0))

  function Load(nvs: map<u32, u32>, a: u32): u32 {
    if a != 0 && a in nvs then nvs[a] else 0
  }

  function Bound(nvs: map<u32, u32>, a: u32): Slot {
    Slot(a, Counter(Load(nvs, a), Load(nvs, a)))
  }

  // ---- the operations -------------------------------------------------------

  datatype Issue = Issue(addr: u32, value: u32)
  datatype Result = Result(state: State, issued: Option<Issue>)

  /** Advance the counter held at `h`. */
  function IssueFrom(s: State, h: nat, w: Write): Result
    requires h < |s.holders|
  {
    var a := s.holders[h].addr;
    var r := Advance(FCNT_RESERVE, s.holders[h].ctr, w);
    var nvs := if r.landed.Some? then s.nvs[a := r.landed.value] else s.nvs;
    Result(s.(holders := s.holders[h := Slot(a, r.ctr)], nvs := nvs),
           if r.issued.Some? then Some(Issue(a, r.issued.value)) else None)
  }

  function NextFcnt(s: State, i: int, w: Write): Result
    requires Shaped(s)
  {
    if i < 0 || i >= MAX_DEVICES then Result(s, None)
    else if s.holders[i].addr == 0 then Result(s, None)
    else IssueFrom(s, i, w)
  }

  function NextFcntForDevAddr(s: State, a: u32, w: Write): Result
    requires Shaped(s)
  {
    if a == 0 then Result(s, None)
    else if a != s.holders[EXT].addr then
      IssueFrom(s.(holders := s.holders[EXT := Bound(s.nvs, a)]), EXT, w)
    else IssueFrom(s, EXT, w)
  }

  function SetDevice(s: State, i: int, a: u32): State
    requires Shaped(s)
  {
    if i < 0 || i >= MAX_DEVICES then s
    else if a != s.holders[i].addr then s.(holders := s.holders[i := Bound(s.nvs, a)])
    else s
  }

  function ClearDevice(s: State, i: int): State
    requires Shaped(s)
  {
    if i < 0 || i >= MAX_DEVICES then s else s.(holders := s.holders[i := EMPTY])
  }

  /** The table blob in flash; a save that fails leaves the old one. */
  function SaveTable(s: State, ok: bool): State
    requires Shaped(s)
  {
    if ok then s.(table := seq(MAX_DEVICES, i requires 0 <= i < MAX_DEVICES => s.holders[i].addr)) else s
  }

  function Begin(s: State): State
    requires Shaped(s)
  {
    s.(holders := seq(MAX_DEVICES, i requires 0 <= i < MAX_DEVICES => Bound(s.nvs, s.table[i])) + [EMPTY])
  }

  // ---- runs ------------------------------------------------------------------

  datatype Event =
    | IssueSlot(i: int, w: Write)
    | IssueAddr(a: u32, w: Write)
    | Set(i: int, a: u32)
    | Clear(i: int)
    | Save(ok: bool)
    | Reboot

  function Apply(s: State, e: Event): (r: Result)
    requires Shaped(s)
    ensures Shaped(r.state)
  {
    match e
    case IssueSlot(i, w) => NextFcnt(s, i, w)
    case IssueAddr(a, w) => NextFcntForDevAddr(s, a, w)
    case Set(i, a) => Result(SetDevice(s, i, a), None)
    case Clear(i) => Result(ClearDevice(s, i), None)
    case Save(ok) => Result(SaveTable(s, ok), None)
    case Reboot => Result(Begin(s), None)
  }

  function After(s: State, es: seq<Event>): (r: State)
    requires Shaped(s)
    ensures Shaped(r)
  {
    if es == [] then s else Apply(After(s, es[..|es| - 1]), es[|es| - 1]).state
  }

  /** The counters handed out along a run, in order. */
  function Issued(s: State, es: seq<Event>): seq<Issue>
    requires Shaped(s)
  {
    if es == [] then []
    else
      var o := Apply(After(s, es[..|es| - 1]), es[|es| - 1]).issued;
      Issued(s, es[..|es| - 1]) + (if o.Some? then [o.value] else [])
  }

  const ALL := MAX_DEVICES + 1         // the slots and the fallback

  /** None of the first `live` holders but one owns address `a`. */
  ghost predicate Unheld(s: State, a: u32, except: int, live: nat) {
    forall h :: 0 <= h < |s.holders| && h < live && h != except ==> s.holders[h].addr != a
  }

  /** A counter for `a` is drawn only while no other of the `live` holders caches `a`; nothing else is asked. */
  ghost predicate Alone(s: State, e: Event, a: u32, live: nat)
    requires Shaped(s)
  {
    match e
    case IssueSlot(i, _) => 0 <= i < MAX_DEVICES && s.holders[i].addr == a ==> Unheld(s, a, i, live)
    case IssueAddr(b, _) => b == a ==> live == ALL && Unheld(s, a, EXT, live)
    case _ => true
  }

  ghost predicate DrawnAlone(s: State, es: seq<Event>, a: u32)
    requires Shaped(s)
  {
    es == [] || (DrawnAlone(s, es[..|es| - 1], a) && Alone(After(s, es[..|es| - 1]), es[|es| - 1], a, ALL))
  }

  // ---- the invariant ----------------------------------------------------------

  /** What a live holder may still hand out lies below the reservation in flash. */
  ghost predicate Covered(s: State, a: u32, live: nat)
    requires Shaped(s)
  {
    forall h :: 0 <= h <= MAX_DEVICES && h < live && s.holders[h].addr == a ==>
      s.holders[h].ctr.next <= s.holders[h].ctr.reserved <= Load(s.nvs, a)
  }

  /** Every value issued for `a` lies below what any live holder of `a`, or flash, can still issue. */
  ghost predicate Behind(s: State, out: seq<Issue>, a: u32, live: nat)
    requires Shaped(s)
  {
    forall k :: 0 <= k < |out| && out[k].addr == a ==>
      && out[k].value < Load(s.nvs, a)
      && forall h :: 0 <= h <= MAX_DEVICES && h < live && s.holders[h].addr == a ==> out[k].value < s.holders[h].ctr.next
  }

  /** The values issued for `a` strictly increase. */
  ghost predicate Increasing(out: seq<Issue>, a: u32) {
    forall k, l :: 0 <= k < l < |out| && out[k].addr == out[l].addr == a ==> out[k].value < out[l].value
  }

  ghost predicate Inv(s: State, out: seq<Issue>, a: u32, live: nat)
    requires Shaped(s)
  {
    Covered(s, a, live) && Behind(s, out, a, live) && Increasing(out, a)
  }

  /** Issuing from a live holder of `a` that is alone, or from a holder of another address. */
  lemma IssueKeeps(s: State, out: seq<Issue>, h: nat, w: Write, a: u32, live: nat)
    requires Shaped(s) && Inv(s, out, a, live) && a != 0
    requires h <= MAX_DEVICES && (s.holders[h].addr == a ==> h < live && Unheld(s, a, h, live))
    ensures var r := IssueFrom(s, h, w);
            && Shaped(r.state)
            && Inv(r.state, out + (if r.issued.Some? then [r.issued.value] else []), a, live)
  {
    var r := IssueFrom(s, h, w);
    var out' := out + (if r.issued.Some? then [r.issued.value] else []);
    assert Covered(r.state, a, live);
    assert Behind(r.state, out', a, live);
  }

  /** Loading any address into any holder keeps the invariant, shared or not. */
  lemma BindKeeps(s: State, out: seq<Issue>, h: nat, b: u32, a: u32, live: nat)
    requires Shaped(s) && Inv(s, out, a, live)
    requires h <= MAX_DEVICES
    ensures var s' := s.(holders := s.holders[h := Bound(s.nvs, b)]);
            Shaped(s') && Inv(s', out, a, live)
  {
  }

  lemma RebootKeeps(s: State, out: seq<Issue>, a: u32, live: nat)
    requires Shaped(s) && Inv(s, out, a, live)
    ensures Inv(Begin(s), out, a, live)
  {
    var s' := Begin(s);
    assert forall h :: 0 <= h < MAX_DEVICES ==> s'.holders[h] == Bound(s.nvs, s.table[h]);
    assert s'.holders[EXT] == EMPTY;
  }

  lemma StepKeeps(s: State, out: seq<Issue>, e: Event, a: u32, live: nat)
    requires Shaped(s) && a != 0 && MAX_DEVICES <= live && Inv(s, out, a, live) && Alone(s, e, a, live)
    ensures var r := Apply(s, e);
            Inv(r.state, out + (if r.issued.Some? then [r.issued.value] else []), a, live)
  {
    var r := Apply(s, e);
    var out' := out + (if r.issued.Some? then [r.issued.value] else []);
    if r.issued.None? { assert out' == out; }
    match e
    case IssueSlot(i, w) =>
      if 0 <= i < MAX_DEVICES && s.holders[i].addr != 0 { IssueKeeps(s, out, i, w, a, live); }
    case IssueAddr(b, w) =>
      if b != 0 {
        BindKeeps(s, out, EXT, b, a, live);
        var t := if b != s.holders[EXT].addr then s.(holders := s.holders[EXT := Bound(s.nvs, b)]) else s;
        IssueKeeps(t, out, EXT, w, a, live);
      }
    case Set(i, b) =>
      if 0 <= i < MAX_DEVICES && b != s.holders[i].addr { BindKeeps(s, out, i, b, a, live); }
    case Clear(i) =>
      if 0 <= i < MAX_DEVICES { BindKeeps(s, out, i, 0, a, live); }
    case Save(_) =>
    case Reboot => RebootKeeps(s, out, a, live);
  }

  lemma {:induction false} RunKeeps(es: seq<Event>, a: u32)
    requires a != 0 && DrawnAlone(FRESH, es, a)
    ensures Inv(After(FRESH, es), Issued(FRESH, es), a, ALL)
  {
    if es != [] {
      RunKeeps(es[..|es| - 1], a);
      StepKeeps(After(FRESH, es[..|es| - 1]), Issued(FRESH, es[..|es| - 1]), es[|es| - 1], a, ALL);
    }
  }

  /** Whatever the run, an issued value has an address and is not the invalid marker. */
  lemma {:induction false} IssuedInRange(es: seq<Event>)
    ensures forall k :: 0 <= k < |Issued(FRESH, es)| ==>
              Issued(FRESH, es)[k].addr != 0 && Issued(FRESH, es)[k].value < FCNT_INVALID
  {
    if es != [] {
      IssuedInRange(es[..|es| - 1]);
    }
  }

  /**
   Over every run of reboots, slot edits, moves and swaps, fallback rebinds, issues and failed
   or unconfirmed writes, the counters of a DevAddr strictly increase, as long as it is only
   drawn from while one holder caches it. What happens to other addresses does not matter.
   */
  lemma FcntStrictlyIncreases(es: seq<Event>, a: u32)
    requires a != 0 && DrawnAlone(FRESH, es, a)
    ensures Increasing(Issued(FRESH, es), a)
  {
    RunKeeps(es, a);
  }

  /** Edits, saves and reboots are never in the way: rows may be moved or swapped in any order. */
  lemma {:induction false} EditsAreFree(es: seq<Event>, edits: seq<Event>, a: u32)
    requires DrawnAlone(FRESH, es, a)
    requires forall e :: e in edits ==> !e.IssueSlot? && !e.IssueAddr?
    ensures DrawnAlone(FRESH, es + edits, a)
  {
    if edits == [] {
      assert es + edits == es;
    } else {
      EditsAreFree(es, edits[..|edits| - 1], a);
      assert (es + edits)[..|es + edits| - 1] == es + edits[..|edits| - 1];
      assert edits[|edits| - 1] in edits;
    }
  }

  // ---- why one counter per address is needed -----------------------------------

  lemma {:induction false} Split(s: State, a: seq<Event>, b: seq<Event>)
    requires Shaped(s)
    ensures After(s, a + b) == After(After(s, a), b)
    ensures Issued(s, a + b) == Issued(s, a) + Issued(After(s, a), b)
  {
    if b == [] {
      assert a + b == a;
    } else {
      var b' := b[..|b| - 1];
      assert (a + b)[..|a + b| - 1] == a + b';
      Split(s, a, b');
    }
  }

  /** The event by which holder `h` of address `a` issues, with a confirmed write. */
  function IssueBy(h: nat, a: u32): Event {
    if h == EXT then IssueAddr(a, Confirmed) else IssueSlot(h, Confirmed)
  }

  /** Left alone, a holder issues consecutive values. */
  lemma {:induction false} Chain(s: State, h: nat, n: nat)
    requires Shaped(s) && h <= MAX_DEVICES && s.holders[h].addr != 0
    requires s.holders[h].ctr.next + n <= U32_MAX - FCNT_RESERVE
    ensures var es := seq(n, _ => IssueBy(h, s.holders[h].addr));
            var t := After(s, es);
            && t.holders[h].addr == s.holders[h].addr
            && t.holders[h].ctr.next == s.holders[h].ctr.next + n
            && (forall g :: 0 <= g <= MAX_DEVICES && g != h ==> t.holders[g] == s.holders[g])
            && |Issued(s, es)| == n
            && (forall k :: 0 <= k < n ==> Issued(s, es)[k] == Issue(s.holders[h].addr, s.holders[h].ctr.next + k))
  {
    if n > 0 {
      Chain(s, h, n - 1);
      var e := IssueBy(h, s.holders[h].addr);
      assert seq(n, _ => e)[..n - 1] == seq(n - 1, _ => e);
    }
  }

  ghost predicate Repeats(out: seq<Issue>, a: u32) {
    exists k, l :: 0 <= k < l < |out| && out[k] == out[l] && out[k].addr == a
  }

  /** A draw by holder `h` of address `a`. */
  ghost predicate DrawsBy(e: Event, h: nat, a: u32) {
    if h == EXT then e.IssueAddr? && e.a == a else e.IssueSlot?
  }

  /** Two counters on one address hand out a value twice as soon as both are used. */
  lemma SharedIdentityRepeats(s: State, i: nat, j: nat) returns (es: seq<Event>)
    requires Shaped(s) && i <= MAX_DEVICES && j <= MAX_DEVICES && i != j
    requires s.holders[i].addr == s.holders[j].addr != 0
    requires s.holders[i].ctr.next <= s.holders[j].ctr.next
    requires !Exhausted(FCNT_RESERVE, s.holders[j].ctr.next)
    ensures forall e :: e in es ==> DrawsBy(e, i, s.holders[i].addr) || DrawsBy(e, j, s.holders[i].addr)
    ensures Repeats(Issued(s, es), s.holders[i].addr)
  {
    var a := s.holders[i].addr;
    var first := seq(1, _ => IssueBy(j, a));
    Chain(s, j, 1);
    var t := After(s, first);
    var n := s.holders[j].ctr.next - s.holders[i].ctr.next + 1;
    var rest := seq(n, _ => IssueBy(i, a));
    Chain(t, i, n);
    es := first + rest;
    Split(s, first, rest);
    var out := Issued(s, es);
    assert out[0] == Issue(a, s.holders[j].ctr.next) == out[n];
  }

  /** The holders of `a`, and its reservation, have not used up the counter space. */
  ghost predicate Room(s: State, a: u32) {
    && !Exhausted(FCNT_RESERVE, Load(s.nvs, a))
    && forall h :: 0 <= h < |s.holders| && s.holders[h].addr == a ==> !Exhausted(FCNT_RESERVE, s.holders[h].ctr.next)
  }

  // ---- what may happen after an edit -----------------------------------------------

  /**
   Anything but another edit that writes `a` into a row; and `a` is drawn through the fallback
   only if it is the fallback's address. Draws, saves, clears, other edits, reboots, bad writes.
   */
  predicate Later(e: Event, a: u32, fallback: bool) {
    match e
    case Set(_, b) => b != a
    case IssueAddr(b, _) => b == a ==> fallback
    case _ => true
  }

  ghost predicate AllLater(es: seq<Event>, a: u32, fallback: bool) {
    forall k :: 0 <= k < |es| ==> Later(es[k], a, fallback)
  }

  /** Whatever happens from now on, no value of `a` is ever handed out twice. */
  ghost predicate SafeFrom(t: State, out: seq<Issue>, a: u32, fallback: bool)
    requires Shaped(t)
  {
    forall more :: AllLater(more, a, fallback) ==> !Repeats(out + Issued(t, more), a)
  }

  /** At most one of them is `a`; none if the fallback is. */
  ghost predicate Single(addrs: seq<u32>, a: u32, fallback: bool) {
    && (fallback ==> a !in addrs)
    && forall i, j :: 0 <= i < j < |addrs| && addrs[i] == a ==> addrs[j] != a
  }

  lemma SingleAt(addrs: seq<u32>, i: nat, a: u32)
    requires i < |addrs| && addrs[i] == a
    ensures Single(addrs, a, false) <==> forall h :: 0 <= h < |addrs| && h != i ==> addrs[h] != a
  {
  }

  /** The addresses of the four slots. */
  function Slots(s: State): (r: seq<u32>)
    requires Shaped(s)
    ensures |r| == MAX_DEVICES
  {
    seq(MAX_DEVICES, i requires 0 <= i < MAX_DEVICES => s.holders[i].addr)
  }

  /** In RAM and in the saved table alike. */
  ghost predicate Lone(s: State, a: u32, fallback: bool)
    requires Shaped(s)
  {
    Single(Slots(s), a, fallback) && Single(s.table, a, fallback)
  }

  function Live(fallback: bool): nat { if fallback then ALL else MAX_DEVICES }

  lemma LoneIsAlone(s: State, e: Event, a: u32, fallback: bool)
    requires Shaped(s) && Lone(s, a, fallback) && Later(e, a, fallback)
    ensures Alone(s, e, a, Live(fallback))
  {
    assert forall h :: 0 <= h < MAX_DEVICES ==> s.holders[h].addr == Slots(s)[h];
  }

  lemma LoneStays(s: State, e: Event, a: u32, fallback: bool)
    requires Shaped(s) && a != 0 && Lone(s, a, fallback) && Later(e, a, fallback)
    ensures Lone(Apply(s, e).state, a, fallback)
  {
    var t := Apply(s, e).state;
    match e
    case Set(i, b) => if 0 <= i < MAX_DEVICES { assert Slots(t) == Slots(s)[i := b]; }
    case Clear(i) => if 0 <= i < MAX_DEVICES { assert Slots(t) == Slots(s)[i := 0]; }
    case Reboot => assert Slots(t) == s.table;
    case Save(ok) => assert Slots(t) == Slots(s) && (ok ==> t.table == Slots(s));
    case IssueSlot(_, _) => assert Slots(t) == Slots(s);
    case IssueAddr(_, _) => assert Slots(t) == Slots(s);
  }

  lemma {:induction false} LoneNeverRepeats(t: State, out: seq<Issue>, more: seq<Event>, a: u32, fallback: bool)
    requires Shaped(t) && a != 0 && Inv(t, out, a, Live(fallback)) && Lone(t, a, fallback) && AllLater(more, a, fallback)
    ensures Inv(After(t, more), out + Issued(t, more), a, Live(fallback)) && Lone(After(t, more), a, fallback)
    ensures !Repeats(out + Issued(t, more), a)
  {
    if more == [] {
      assert out + Issued(t, more) == out;
    } else {
      var more', e := more[..|more| - 1], more[|more| - 1];
      LoneNeverRepeats(t, out, more', a, fallback);
      var u := After(t, more');
      LoneIsAlone(u, e, a, fallback);
      LoneStays(u, e, a, fallback);
      StepKeeps(u, out + Issued(t, more'), e, a, Live(fallback));
      var o := Apply(u, e).issued;
      assert out + Issued(t, more) == out + Issued(t, more') + (if o.Some? then [o.value] else []);
    }
  }

  lemma RepeatsInTail(out: seq<Issue>, tail: seq<Issue>, a: u32)
    requires Repeats(tail, a)
    ensures Repeats(out + tail, a)
  {
    var k, l :| 0 <= k < l < |tail| && tail[k] == tail[l] && tail[k].addr == a;
    var all := out + tail;
    assert all[|out| + k] == all[|out| + l];
  }

  /** Two holders that may both be drawn from. */
  lemma SharedRepeats(t: State, i: nat, h: nat, a: u32, fallback: bool) returns (more: seq<Event>)
    requires Shaped(t) && a != 0 && i < Live(fallback) && h < Live(fallback) && i != h
    requires t.holders[i].addr == t.holders[h].addr == a && Room(t, a)
    ensures AllLater(more, a, fallback) && Repeats(Issued(t, more), a)
  {
    if t.holders[h].ctr.next <= t.holders[i].ctr.next {
      more := SharedIdentityRepeats(t, h, i);
    } else {
      more := SharedIdentityRepeats(t, i, h);
    }
    forall k | 0 <= k < |more| ensures Later(more[k], a, fallback) { assert more[k] in more; }
  }

  /** Binding the fallback by a draw whose write fails: nothing is handed out. */
  lemma FallbackBinds(t: State, a: u32) returns (bind: seq<Event>)
    requires Shaped(t) && a != 0 && Room(t, a)
    ensures AllLater(bind, a, true) && Issued(t, bind) == []
    ensures var u := After(t, bind); u.holders[EXT].addr == a && Slots(u) == Slots(t) && Room(u, a)
  {
    if t.holders[EXT].addr == a {
      bind := [];
    } else {
      bind := [IssueAddr(a, Failed)];
      var r := NextFcntForDevAddr(t, a, Failed);
      assert bind[..0] == [];
      assert After(t, bind) == r.state && r.issued == None;
      assert forall h :: 0 <= h < MAX_DEVICES ==> r.state.holders[h] == t.holders[h];
      assert Slots(r.state) == Slots(t);
    }
  }

  /** Events that hand out nothing, and then a repeat. */
  lemma Prefixed(t: State, pre: seq<Event>, rest: seq<Event>, a: u32, fallback: bool)
    requires Shaped(t) && AllLater(pre, a, fallback) && AllLater(rest, a, fallback)
    requires Issued(t, pre) == [] && Repeats(Issued(After(t, pre), rest), a)
    ensures AllLater(pre + rest, a, fallback) && Repeats(Issued(t, pre + rest), a)
  {
    Split(t, pre, rest);
    var out := Issued(After(t, pre), rest);
    assert [] + out == out;
  }

  lemma Boots(t: State, a: u32)
    requires Shaped(t) && a != 0 && Room(t, a)
    ensures After(t, [Reboot]) == Begin(t) && Issued(t, [Reboot]) == []
    ensures Slots(Begin(t)) == t.table && Room(Begin(t), a)
  {
    assert [Reboot][..0] == [];
    assert Slots(Begin(t)) == t.table;
  }

  /** A slot of the fallback's own address. */
  lemma FallbackSlotRepeats(t: State, a: u32) returns (more: seq<Event>)
    requires Shaped(t) && a != 0 && Room(t, a) && a in Slots(t)
    ensures AllLater(more, a, true) && Repeats(Issued(t, more), a)
  {
    var i :| 0 <= i < MAX_DEVICES && Slots(t)[i] == a;
    var bind := FallbackBinds(t, a);
    var u := After(t, bind);
    assert u.holders[i].addr == Slots(u)[i] == a;
    var rest := SharedRepeats(u, i, EXT, a, true);
    Prefixed(t, bind, rest, a, true);
    more := bind + rest;
  }

  /** A slot of the fallback's address, or two slots of one address, in RAM. */
  lemma CrowdedRepeats(t: State, a: u32, fallback: bool) returns (more: seq<Event>)
    requires Shaped(t) && a != 0 && Room(t, a) && !Single(Slots(t), a, fallback)
    ensures AllLater(more, a, fallback) && Repeats(Issued(t, more), a)
  {
    if fallback && a in Slots(t) {
      more := FallbackSlotRepeats(t, a);
    } else {
      var i, j :| 0 <= i < j < MAX_DEVICES && Slots(t)[i] == a && Slots(t)[j] == a;
      more := SharedRepeats(t, i, j, a, fallback);
    }
  }

  /** Or in the saved table: a reboot brings them into RAM. */
  lemma SavedRepeats(t: State, a: u32, fallback: bool) returns (more: seq<Event>)
    requires Shaped(t) && a != 0 && Room(t, a) && !Single(t.table, a, fallback)
    ensures AllLater(more, a, fallback) && Repeats(Issued(t, more), a)
  {
    Boots(t, a);
    var rest := CrowdedRepeats(Begin(t), a, fallback);
    Prefixed(t, [Reboot], rest, a, fallback);
    more := [Reboot] + rest;
  }

  /** All that follows is safe exactly when `a` stands once at most, in RAM and in the saved table. */
  lemma SafeIffLone(t: State, out: seq<Issue>, a: u32, fallback: bool)
    requires Shaped(t) && a != 0
    requires Lone(t, a, fallback) ==> Inv(t, out, a, Live(fallback))
    ensures Lone(t, a, fallback) ==> SafeFrom(t, out, a, fallback)
    ensures Room(t, a) && SafeFrom(t, out, a, fallback) ==> Lone(t, a, fallback)
  {
    if Lone(t, a, fallback) {
      forall more | AllLater(more, a, fallback) ensures !Repeats(out + Issued(t, more), a) {
        LoneNeverRepeats(t, out, more, a, fallback);
      }
    } else if Room(t, a) {
      var more;
      if Single(Slots(t), a, fallback) { more := SavedRepeats(t, a, fallback); } else { more := CrowdedRepeats(t, a, fallback); }
      RepeatsInTail(out, Issued(t, more), a);
    }
  }

  lemma EditedLone(s: State, i: nat, a: u32, fallback: bool)
    requires Shaped(s) && i < MAX_DEVICES
    ensures Lone(SetDevice(s, i, a), a, fallback) <==> !fallback && Unheld(s, a, i, MAX_DEVICES) && Single(s.table, a, false)
  {
    var t := SetDevice(s, i, a);
    assert Slots(t) == Slots(s)[i := a];
    SingleAt(Slots(t), i, a);
    assert forall h :: 0 <= h < MAX_DEVICES ==> Slots(s)[h] == s.holders[h].addr;
    assert forall h :: 0 <= h < MAX_DEVICES && h != i ==> Slots(t)[h] == s.holders[h].addr;
  }

  /**
   Giving address `a` to slot `i` leaves everything that may follow, reboots included, free of
   repeats exactly when `a` is not the fallback's address, no other slot caches it, and it is
   not saved in two rows. A counter near its end can hide a second row, hence the proviso
   of the second clause.
   */
  lemma SetDeviceSafeIff(es: seq<Event>, i: nat, a: u32, fallback: bool)
    requires a != 0 && DrawnAlone(FRESH, es, a) && i < MAX_DEVICES
    ensures var s := After(FRESH, es);
            var t, safe := SetDevice(s, i, a), !fallback && Unheld(s, a, i, MAX_DEVICES) && Single(s.table, a, false);
            && (safe ==> SafeFrom(t, Issued(FRESH, es), a, fallback))
            && (Room(t, a) && SafeFrom(t, Issued(FRESH, es), a, fallback) ==> safe)
  {
    var s, out := After(FRESH, es), Issued(FRESH, es);
    RunKeeps(es, a);
    StepKeeps(s, out, Set(i, a), a, ALL);
    assert out + [] == out;
    EditedLone(s, i, a, fallback);
    SafeIffLone(SetDevice(s, i, a), out, a, fallback);
  }

  lemma DrawnLone(s: State, a: u32, w: Write)
    requires Shaped(s)
    ensures Lone(NextFcntForDevAddr(s, a, w).state, a, true) <==> Unheld(s, a, EXT, ALL) && a !in s.table
  {
    var t := NextFcntForDevAddr(s, a, w).state;
    assert Slots(t) == Slots(s) && t.table == s.table;
    assert forall h :: 0 <= h < MAX_DEVICES ==> Slots(s)[h] == s.holders[h].addr;
  }

  /** `out`, and what one more event hands out. */
  function Plus(out: seq<Issue>, r: Result): seq<Issue> {
    out + (if r.issued.Some? then [r.issued.value] else [])
  }

  lemma IssuedMore(s: State, es: seq<Event>, e: Event)
    requires Shaped(s)
    ensures Issued(s, es + [e]) == Plus(Issued(s, es), Apply(After(s, es), e))
  {
    assert (es + [e])[..|es + [e]| - 1] == es;
  }

  lemma DrawSafeIff(s: State, out: seq<Issue>, a: u32, w: Write)
    requires Shaped(s) && a != 0 && Inv(s, out, a, ALL)
    ensures var r := NextFcntForDevAddr(s, a, w);
            var safe := Unheld(s, a, EXT, ALL) && a !in s.table;
            && (safe ==> SafeFrom(r.state, Plus(out, r), a, true))
            && (Room(r.state, a) && SafeFrom(r.state, Plus(out, r), a, true) ==> safe)
  {
    var r := NextFcntForDevAddr(s, a, w);
    DrawnLone(s, a, w);
    if Unheld(s, a, EXT, ALL) { StepKeeps(s, out, IssueAddr(a, w), a, ALL); }
    SafeIffLone(r.state, Plus(out, r), a, true);
  }

  /**
   Drawing for address `a` through the fallback identity leaves this draw and everything that may
   follow free of repeats exactly when no slot caches that address and no row saves it (same proviso).
   */
  lemma FallbackSafeIff(es: seq<Event>, a: u32, w: Write)
    requires a != 0 && DrawnAlone(FRESH, es, a)
    ensures var s := After(FRESH, es);
            var t, out := NextFcntForDevAddr(s, a, w).state, Issued(FRESH, es + [IssueAddr(a, w)]);
            var safe := Unheld(s, a, EXT, ALL) && a !in s.table;
            && (safe ==> SafeFrom(t, out, a, true))
            && (Room(t, a) && SafeFrom(t, out, a, true) ==> safe)
  {
    RunKeeps(es, a);
    IssuedMore(FRESH, es, IssueAddr(a, w));
    DrawSafeIff(After(FRESH, es), Issued(FRESH, es), a, w);
  }

  // ---- how many flash writes a run costs ------------------------------------------

  /** Flash writes made for address `a`. */
  function Writes(s: State, es: seq<Event>, a: u32): nat
    requires Shaped(s)
  {
    if es == [] then 0
    else
      var t, e := After(s, es[..|es| - 1]), es[|es| - 1];
      Writes(s, es[..|es| - 1], a) + (if WritesFor(t, e, a) then 1 else 0)
  }

  predicate WritesFor(s: State, e: Event, a: u32)
    requires Shaped(s)
  {
    match e
    case IssueSlot(i, w) =>
      && 0 <= i < MAX_DEVICES && s.holders[i].addr == a && a != 0
      && Advance(FCNT_RESERVE, s.holders[i].ctr, w).landed.Some?
    case IssueAddr(b, w) =>
      && b == a && a != 0
      && Advance(FCNT_RESERVE, (if a == s.holders[EXT].addr then s.holders[EXT] else Bound(s.nvs, a)).ctr, w).landed.Some?
    case _ => false
  }

  /** How often a counter for `a` was loaded from flash: by edits, rebinds and, per saved row, reboots. */
  function Loads(s: State, es: seq<Event>, a: u32): nat
    requires Shaped(s)
  {
    if es == [] then 0
    else Loads(s, es[..|es| - 1], a) + LoadedBy(After(s, es[..|es| - 1]), es[|es| - 1], a)
  }

  function LoadedBy(s: State, e: Event, a: u32): nat
    requires Shaped(s)
  {
    match e
    case Reboot => RowsOf(s.table, a)
    case Set(i, b) => if 0 <= i < MAX_DEVICES && b == a && s.holders[i].addr != a then 1 else 0
    case IssueAddr(b, _) => if b == a && s.holders[EXT].addr != a then 1 else 0
    case _ => 0
  }

  function RowsOf(table: seq<u32>, a: u32): nat {
    if table == [] then 0 else RowsOf(table[..|table| - 1], a) + (if table[|table| - 1] == a then 1 else 0)
  }

  lemma {:induction false} SomeRow(table: seq<u32>, a: u32, k: nat)
    requires k < |table| && table[k] == a
    ensures RowsOf(table, a) > 0
  {
    if k < |table| - 1 { SomeRow(table[..|table| - 1], a, k); }
  }

  function CountFor(out: seq<Issue>, a: u32): nat {
    if out == [] then 0
    else CountFor(out[..|out| - 1], a) + (if out[|out| - 1].addr == a then 1 else 0)
  }

  ghost predicate AllConfirmed(es: seq<Event>) {
    forall k :: 0 <= k < |es| ==> (es[k].IssueSlot? || es[k].IssueAddr?) ==> es[k].w.Confirmed?
  }

  /** The accounting for one address: reservations written, values issued, counters loaded. */
  ghost predicate Ledger(s: State, a: u32, writes: nat, count: nat, loads: nat)
    requires Shaped(s)
  {
    && Load(s.nvs, a) == 33 * writes <= count + 32 * loads
    && forall h :: 0 <= h <= MAX_DEVICES && s.holders[h].addr == a ==>
         var c := s.holders[h].ctr;
         && c.reserved == Load(s.nvs, a)
         && 0 <= c.reserved - c.next <= 32
         && 33 * writes <= count + 32 * (loads - 1) + (c.reserved - c.next)
  }

  /** A holder that is alone with `a` draws, or a holder of another address does. */
  lemma LedgerIssue(s: State, h: nat, a: u32, writes: nat, count: nat, loads: nat)
    requires Shaped(s) && a != 0 && Ledger(s, a, writes, count, loads)
    requires h <= MAX_DEVICES && (s.holders[h].addr == a ==> Unheld(s, a, h, ALL))
    ensures var r := IssueFrom(s, h, Confirmed);
            var mine := s.holders[h].addr == a;
            var wrote := mine && Advance(FCNT_RESERVE, s.holders[h].ctr, Confirmed).landed.Some?;
            && Shaped(r.state)
            && (r.issued.Some? ==> r.issued.value.addr == s.holders[h].addr)
            && Ledger(r.state, a, writes + (if wrote then 1 else 0), count + (if mine && r.issued.Some? then 1 else 0), loads)
  {
  }

  /** Loading `b` into holder `h`. */
  lemma LedgerBind(s: State, h: nat, b: u32, a: u32, writes: nat, count: nat, loads: nat)
    requires Shaped(s) && a != 0 && Ledger(s, a, writes, count, loads)
    requires h <= MAX_DEVICES
    ensures Ledger(s.(holders := s.holders[h := Bound(s.nvs, b)]), a, writes, count, loads + (if b == a then 1 else 0))
  {
  }

  lemma LedgerReboot(s: State, a: u32, writes: nat, count: nat, loads: nat)
    requires Shaped(s) && a != 0 && Ledger(s, a, writes, count, loads)
    ensures Ledger(Begin(s), a, writes, count, loads + RowsOf(s.table, a))
  {
    var t := Begin(s);
    assert t.holders[EXT] == EMPTY;
    forall h | 0 <= h <= MAX_DEVICES && t.holders[h].addr == a
      ensures t.holders[h] == Bound(s.nvs, a) && RowsOf(s.table, a) > 0
    {
      SomeRow(s.table, a, h);
    }
  }

  lemma LedgerFallback(s: State, b: u32, a: u32, writes: nat, count: nat, loads: nat)
    requires Shaped(s) && a != 0 && b != 0 && Ledger(s, a, writes, count, loads)
    requires b == a ==> Unheld(s, a, EXT, ALL)
    ensures var e := IssueAddr(b, Confirmed);
            var r := Apply(s, e);
            Ledger(r.state, a,
                   writes + (if WritesFor(s, e, a) then 1 else 0),
                   count + (if r.issued.Some? && r.issued.value.addr == a then 1 else 0),
                   loads + LoadedBy(s, e, a))
  {
    if b == s.holders[EXT].addr {
      LedgerIssue(s, EXT, a, writes, count, loads);
    } else {
      LedgerBind(s, EXT, b, a, writes, count, loads);
      LedgerIssue(s.(holders := s.holders[EXT := Bound(s.nvs, b)]), EXT, a, writes, count, loads + (if b == a then 1 else 0));
    }
  }

  lemma LedgerStep(s: State, e: Event, a: u32, writes: nat, count: nat, loads: nat)
    requires Shaped(s) && a != 0 && Alone(s, e, a, ALL) && AllConfirmed([e])
    requires Ledger(s, a, writes, count, loads)
    ensures var r := Apply(s, e);
            Ledger(r.state, a,
                   writes + (if WritesFor(s, e, a) then 1 else 0),
                   count + (if r.issued.Some? && r.issued.value.addr == a then 1 else 0),
                   loads + LoadedBy(s, e, a))
  {
    assert e == [e][0];
    match e
    case IssueSlot(i, w) =>
      if 0 <= i < MAX_DEVICES && s.holders[i].addr != 0 { LedgerIssue(s, i, a, writes, count, loads); }
    case IssueAddr(b, w) =>
      if b != 0 { LedgerFallback(s, b, a, writes, count, loads); }
    case Set(i, b) =>
      if 0 <= i < MAX_DEVICES && b != s.holders[i].addr { LedgerBind(s, i, b, a, writes, count, loads); }
    case Clear(i) =>
      if 0 <= i < MAX_DEVICES { LedgerBind(s, i, 0, a, writes, count, loads); }
    case Save(_) =>
    case Reboot => LedgerReboot(s, a, writes, count, loads);
  }

  lemma {:induction false} LedgerRun(es: seq<Event>, a: u32)
    requires a != 0 && DrawnAlone(FRESH, es, a) && AllConfirmed(es)
    ensures Ledger(After(FRESH, es), a, Writes(FRESH, es, a), CountFor(Issued(FRESH, es), a), Loads(FRESH, es, a))
  {
    if es != [] {
      var es', e := es[..|es| - 1], es[|es| - 1];
      LedgerRun(es', a);
      var s := After(FRESH, es');
      assert AllConfirmed([e]);
      LedgerStep(s, e, a, Writes(FRESH, es', a), CountFor(Issued(FRESH, es'), a), Loads(FRESH, es', a));
      var o := Apply(s, e).issued;
      if o.Some? { assert Issued(FRESH, es)[..|Issued(FRESH, es)| - 1] == Issued(FRESH, es'); }
      else { assert Issued(FRESH, es) == Issued(FRESH, es'); }
    }
  }

  /**
   With every write confirmed, issuing n counters for one address whose counter is loaded L
   times (once at first, and once for every reboot, edit or rebind that brings it back) costs
   at most n/33 + L flash writes, and reserves exactly 33 values per write.
   */
  lemma WriteEconomy(es: seq<Event>, a: u32)
    requires a != 0 && DrawnAlone(FRESH, es, a) && AllConfirmed(es)
    ensures var n, loads := CountFor(Issued(FRESH, es), a), Loads(FRESH, es, a);
            && 33 * Writes(FRESH, es, a) <= n + 32 * loads
            && Writes(FRESH, es, a) <= n / 33 + loads
            && Load(After(FRESH, es).nvs, a) == 33 * Writes(FRESH, es, a)
  {
    LedgerRun(es, a);
  }

  /** `x` is the very first value, or at most 33 above something already issued for `a`. */
  ghost predicate Near(out: seq<Issue>, a: u32, x: int) {
    x == 0 || exists k :: 0 <= k < |out| && out[k].addr == a && x <= out[k].value + 33
  }

  lemma NearGrows(out: seq<Issue>, more: seq<Issue>, a: u32, x: int, y: int)
    requires Near(out, a, x) && 0 <= y <= x
    ensures Near(out + more, a, y)
  {
    if y != 0 {
      var k :| 0 <= k < |out| && out[k].addr == a && x <= out[k].value + 33;
      assert (out + more)[k] == out[k];
    }
  }

  /** One confirmed step: the new value is near an old one, and so is the new reservation. */
  lemma NearStep(s: State, out: seq<Issue>, e: Event, a: u32)
    requires Shaped(s) && a != 0 && Inv(s, out, a, ALL) && Alone(s, e, a, ALL) && AllConfirmed([e])
    requires Near(out, a, Load(s.nvs, a))
    ensures var r := Apply(s, e);
            var out' := out + (if r.issued.Some? then [r.issued.value] else []);
            && Near(out', a, Load(r.state.nvs, a))
            && (r.issued.Some? && r.issued.value.addr == a ==> Near(out, a, r.issued.value.value))
  {
    assert e == [e][0];
    var r := Apply(s, e);
    var more := if r.issued.Some? then [r.issued.value] else [];
    NearGrows(out, more, a, Load(s.nvs, a), Load(s.nvs, a));
    if r.issued.Some? && r.issued.value.addr == a {
      var v := r.issued.value.value;
      assert v <= Load(s.nvs, a);
      NearGrows(out, [], a, Load(s.nvs, a), v);
      assert out + [] == out;
      assert (out + more)[|out|] == r.issued.value;
      assert Load(r.state.nvs, a) == Load(s.nvs, a) || Load(r.state.nvs, a) == v + 33;
    } else {
      assert Load(r.state.nvs, a) == Load(s.nvs, a);
    }
  }

  /**
   With every write confirmed, no reboot, edit or rebind skips more than 32 values: each
   value issued for an address is the first (zero) or within 33 of an earlier one.
   */
  lemma {:induction false} SkipsAtMost32(es: seq<Event>, a: u32)
    requires a != 0 && DrawnAlone(FRESH, es, a) && AllConfirmed(es)
    ensures var out := Issued(FRESH, es);
            && (forall l :: 0 <= l < |out| && out[l].addr == a ==> Near(out[..l], a, out[l].value))
            && Near(out, a, Load(After(FRESH, es).nvs, a))
  {
    if es != [] {
      var es', e := es[..|es| - 1], es[|es| - 1];
      SkipsAtMost32(es', a);
      RunKeeps(es', a);
      assert AllConfirmed([e]);
      var s, out' := After(FRESH, es'), Issued(FRESH, es');
      NearStep(s, out', e, a);
      var out := Issued(FRESH, es);
      forall l | 0 <= l < |out| && out[l].addr == a ensures Near(out[..l], a, out[l].value) {
        if l < |out'| {
          assert out[..l] == out'[..l];
        } else {
          assert out[..l] == out';
        }
      }
    }
  }
}
