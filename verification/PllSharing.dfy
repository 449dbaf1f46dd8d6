/** The SD/MMC clocks of clock.c: four controllers share PLLC4, which is on only while some controller may use it. */
module PllSharing {
  import opened Bits
  import opened Wrappers

  const PLLP: nat := 0
  const PLLC4_OUT2: nat := 3
  const PLLC4_OUT2_LJ: nat := 1

  predicate Known(rate: u32) {
    rate in {25000, 26000, 50000, 52000, 82000, 100000, 164000, 200000}
  }

  /** The clock in kHz that a rate really gives. */
  function RealClock(rate: u32): u32
    requires Known(rate)
  {
    if rate == 25000 then 24728
    else if rate == 26000 then 25500
    else if rate == 50000 then 48000
    else if rate == 52000 then 51000
    else if rate == 82000 then 81600
    else if rate == 100000 then 99840
    else if rate == 164000 then 163200
    else 199680
  }

  /** The divisor register value for a divisor given in halves: 2 * (d - 1). */
  function Divisor(halves: nat): nat
    requires halves >= 2
  {
    halves - 2
  }

  function DivisorOf(rate: u32): nat {
    if rate == 25000 then Divisor(33)
    else if rate == 26000 then Divisor(32)
    else if rate == 50000 then Divisor(17)
    else if rate == 52000 then Divisor(16)
    else if rate == 82000 then Divisor(10)
    else if rate == 100000 then Divisor(4)
    else if rate == 164000 then Divisor(5)
    else if rate == 200000 then Divisor(2)
    else 0
  }

  function SourceOf(id: nat, rate: u32): nat {
    if rate == 100000 then PLLC4_OUT2
    else if rate == 200000 then if id == 0 || id == 2 then PLLC4_OUT2 else PLLC4_OUT2_LJ
    else PLLP
  }

  // ----- the state of the clocks

  datatype Setting = Setting(clock: u32, actual: u32)

  /** The word pllc4_enabled: a bit for each user, and bit 31 for a PLL that has been set up. */
  datatype Flags = Flags(users: set<nat>, on: bool)

  const NONE := Flags({}, false)

  /**
   The flags of pllc4_enabled, whether PLLC4 runs, the cached settings, and the source, divisor and enable bits of the
   clock registers.
   */
  datatype Clocks = Clocks(flags: Flags, running: bool, table: seq<Setting>, source: seq<nat>, divisor: seq<nat>,
                           enabled: seq<bool>)

  predicate Shape(s: Clocks) { |s.table| == |s.source| == |s.divisor| == |s.enabled| == 4 }

  ghost predicate Inv(s: Clocks) {
    && Shape(s)
    && (s.running <==> s.flags.on)
    && (s.running <==> s.flags != NONE)
    && (forall id :: id in s.flags.users ==> id < 4)
    && (forall id :: 0 <= id < 4 ==> Served(s, id))
    && (forall id :: 0 <= id < 4 ==> Cached(s, id))
  }

  /** An enabled controller that is sourced from PLLC4 is one of its users. */
  ghost predicate Served(s: Clocks, id: nat)
    requires Shape(s) && id < 4
  {
    s.enabled[id] && s.source[id] != PLLP ==> id in s.flags.users
  }

  /** The cached setting is what the registers were set for. */
  ghost predicate Cached(s: Clocks, id: nat)
    requires Shape(s) && id < 4
  {
    && s.source[id] == SourceOf(id, s.table[id].clock)
    && (Known(s.table[id].clock) ==>
          s.table[id].actual == RealClock(s.table[id].clock) && s.divisor[id] == DivisorOf(s.table[id].clock))
  }

  /**
   The clock that is reported for a known rate is what the registers make: the clock of the selected source, 408 MHz or
   199.68 MHz, divided by (divisor + 2) / 2 and rounded up to a kHz. It is never more than was asked for, and the next
   smaller divisor would make it more.
   */
  lemma ReportedClock(s: Clocks, id: nat)
    requires Inv(s) && id < 4 && Known(s.table[id].clock)
    ensures s.table[id].actual <= s.table[id].clock
    ensures var n, d := 2 * (if s.source[id] == 0 then 408000 else 199680), s.divisor[id] + 2;
            (s.table[id].actual - 1) * d < n <= s.table[id].actual * d && n > s.table[id].clock * (d - 1)
  {
    assert Cached(s, id);
  }

  /** The two fastest rates are made from PLLC4, by its second output or the low jitter branch of that, and no other. */
  lemma SelectedSource(s: Clocks, id: nat)
    requires Inv(s) && id < 4
    ensures s.source[id] == 0 <==> s.table[id].clock !in {100000, 200000}
    ensures s.source[id] == 1 <==> s.table[id].clock == 200000 && id in {1, 3}
    ensures s.source[id] in {0, 1, 3}
  {
    assert Cached(s, id);
  }

  /** So an enabled controller never runs from a stopped PLL. */
  lemma NeverStopped(s: Clocks, id: nat)
    requires Inv(s) && id < 4 && s.enabled[id] && s.source[id] != PLLP
    ensures s.running && id in s.flags.users
  {
    assert Served(s, id);
  }

  // ----- what each call does

  function RealOr(rate: u32, clock: u32): u32 { if Known(rate) then RealClock(rate) else clock }

  function Configured(s: Clocks, id: nat, rate: u32, clock: u32): Clocks
    requires Shape(s) && id < 4
  {
    var t := s.(table := s.table[id := Setting(rate, RealOr(rate, clock))],
                source := s.source[id := SourceOf(id, rate)],
               divisor := s.divisor[id := DivisorOf(rate)]);
    if SourceOf(id, rate) != PLLP then t.(flags := Flags(s.flags.users + {id}, true), running := true) else t
  }

  function Enabled(s: Clocks, id: nat, rate: u32): Clocks
    requires Shape(s) && id < 4
  {
    Configured(s, id, rate, 0).(enabled := s.enabled[id := true])
  }

  /** A rate that is cached is not set again, even if the controller was disabled since. */
  function Reconfigured(s: Clocks, id: nat, rate: u32, clock: u32): Clocks
    requires Shape(s) && id < 4
  {
    if s.table[id].clock == rate then s else Configured(s, id, rate, clock)
  }

  /** PLLC4 stops with its last user. */
  function Disabled(s: Clocks, id: nat): Clocks
    requires Shape(s) && id < 4
  {
    var users := s.flags.users - {id};
    var t := s.(enabled := s.enabled[id := false]);
    if users == {} then t.(flags := NONE, running := false) else t.(flags := s.flags.(users := users))
  }

  lemma ConfiguredKeeps(s: Clocks, id: nat, rate: u32, clock: u32)
    requires Inv(s) && id < 4
    ensures Inv(Configured(s, id, rate, clock))
    ensures SourceOf(id, rate) != PLLP ==> id in Configured(s, id, rate, clock).flags.users
  {
    var t := Configured(s, id, rate, clock);
    forall k | 0 <= k < 4
      ensures Served(t, k) && Cached(t, k)
    {
      assert Served(s, k) && Cached(s, k);
    }
  }

  lemma EnabledKeeps(s: Clocks, id: nat, rate: u32)
    requires Inv(s) && id < 4
    ensures Inv(Enabled(s, id, rate))
  {
    ConfiguredKeeps(s, id, rate, 0);
    var c, t := Configured(s, id, rate, 0), Enabled(s, id, rate);
    forall k | 0 <= k < 4
      ensures Served(t, k) && Cached(t, k)
    {
      assert Served(c, k) && Cached(c, k);
    }
  }

  lemma DisabledKeeps(s: Clocks, id: nat)
    requires Inv(s) && id < 4
    ensures Inv(Disabled(s, id)) && id !in Disabled(s, id).flags.users
  {
    var t := Disabled(s, id);
    forall k | 0 <= k < 4
      ensures Served(t, k) && Cached(t, k)
    {
      assert Served(s, k) && Cached(s, k);
    }
  }

  /** Only the two fastest rates start PLLC4 and make the controller a user; all others leave it as it is. */
  lemma ConfiguredUsers(s: Clocks, id: nat, rate: u32, clock: u32)
    requires Shape(s) && id < 4
    ensures var t := Configured(s, id, rate, clock);
            if rate == 100000 || rate == 200000 then t.flags == Flags(s.flags.users + {id}, true) && t.running
            else t.flags == s.flags && t.running == s.running
  {
  }

  /**
   Setting a PLLC4 rate makes the controller a user, except when the rate is still cached from before a disable: then
   nothing is set, and the source register selects a PLL that may be off until the controller is enabled anew.
   */
  lemma ReconfiguredUser(s: Clocks, id: nat, rate: u32, clock: u32)
    requires Inv(s) && id < 4 && SourceOf(id, rate) != PLLP
    ensures id in Reconfigured(s, id, rate, clock).flags.users <==> s.table[id].clock != rate || id in s.flags.users
    ensures Reconfigured(s, id, rate, clock).source[id] == SourceOf(id, rate)
  {
    ConfiguredKeeps(s, id, rate, clock);
    assert Cached(s, id);
  }

  // ----- runs

  datatype Call = Enable(id: nat, rate: u32) | Configure(id: nat, rate: u32, clock: u32) | Disable(id: nat)

  function Step(s: Clocks, call: Call): (t: Clocks)
    requires Shape(s) && call.id < 4
    ensures Shape(t)
  {
    match call
    case Enable(id, rate) => Enabled(s, id, rate)
    case Configure(id, rate, clock) => Reconfigured(s, id, rate, clock)
    case Disable(id) => Disabled(s, id)
  }

  type Calls = calls: seq<Call> | forall i :: 0 <= i < |calls| ==> calls[i].id < 4

  function Run(s: Clocks, calls: Calls): (t: Clocks)
    requires Shape(s)
    ensures Shape(t)
  {
    if calls == [] then s else Step(Run(s, calls[..|calls| - 1]), calls[|calls| - 1])
  }

  lemma {:induction false} RunKeeps(s: Clocks, calls: Calls)
    requires Inv(s)
    ensures Inv(Run(s, calls))
  {
    if calls != [] {
      var last := calls[|calls| - 1];
      RunKeeps(s, calls[..|calls| - 1]);
      StepKeeps(Run(s, calls[..|calls| - 1]), last);
    }
  }

  lemma StepKeeps(s: Clocks, call: Call)
    requires Inv(s) && call.id < 4
    ensures Inv(Step(s, call))
  {
    match call
    case Enable(id, rate) => EnabledKeeps(s, id, rate);
    case Configure(id, rate, clock) => ConfiguredKeeps(s, id, rate, clock);
    case Disable(id) => DisabledKeeps(s, id);
  }

  /** The last call for a controller in a run, if there is one, is a disable. */
  predicate Released(calls: Calls, id: nat) {
    if calls == [] then true
    else if calls[|calls| - 1].id == id then calls[|calls| - 1].Disable?
    else Released(calls[..|calls| - 1], id)
  }

  /** The state that the driver starts in. */
  function AtBoot(enabled: seq<bool>, divisor: seq<nat>): (s: Clocks)
    requires |enabled| == |divisor| == 4
    ensures Shape(s)
  {
    var none := Setting(0, 0);
    Clocks(NONE, false, [none, none, none, none], [PLLP, PLLP, PLLP, PLLP], divisor, enabled)
  }

  /**
   The controller is in use of PLLC4 after a run: since its last disable it was enabled with a fast rate, or set to one
   that was not cached.
   */
  predicate Uses(s: Clocks, calls: Calls, id: nat)
    requires Shape(s)
  {
    if calls == [] then false
    else
      var last, init: Calls := calls[|calls| - 1], calls[..|calls| - 1];
      if last.id != id then Uses(s, init, id)
      else
        match last
        case Enable(_, rate) => rate == 100000 || rate == 200000 || Uses(s, init, id)
        case Configure(_, rate, _) =>
          (Run(s, init).table[id].clock != rate && (rate == 100000 || rate == 200000)) || Uses(s, init, id)
        case Disable(_) => false
  }

  /** After any run from a stopped PLL the users are exactly those controllers, and PLLC4 runs if there is one. */
  lemma {:induction false} UsersAfter(s: Clocks, calls: Calls, id: nat)
    requires Inv(s) && s.flags == NONE && id < 4
    ensures id in Run(s, calls).flags.users <==> Uses(s, calls, id)
    ensures Uses(s, calls, id) ==> Run(s, calls).running
  {
    RunKeeps(s, calls);
    if calls != [] {
      var last, init: Calls := calls[|calls| - 1], calls[..|calls| - 1];
      RunKeeps(s, init);
      UsersAfter(s, init, id);
      StepUsers(Run(s, init), last, id);
    }
  }

  lemma StepUsers(s: Clocks, call: Call, id: nat)
    requires Inv(s) && call.id < 4 && id < 4
    ensures id in Step(s, call).flags.users <==>
            || (id in s.flags.users && !(call.Disable? && call.id == id))
            || (call.Enable? && call.id == id && (call.rate == 100000 || call.rate == 200000))
            || (call.Configure? && call.id == id && s.table[id].clock != call.rate &&
                (call.rate == 100000 || call.rate == 200000))
  {
  }

  /** Enabling, disabling and setting the same rate again selects a PLL that is off. */
  lemma StaleSetting(enabled: seq<bool>, divisor: seq<nat>, s: Clocks, t: Clocks)
    requires |enabled| == |divisor| == 4 && s == AtBoot(enabled, divisor)
    requires t == Step(Step(Step(s, Enable(0, 200000)), Disable(0)), Configure(0, 200000, 0))
    ensures t.source[0] == PLLC4_OUT2 && !t.running && 0 !in t.flags.users
  {
  }

  /** Other controllers' calls do not make a controller a user. */
  lemma OthersStep(s: Clocks, call: Call, id: nat)
    requires Inv(s) && call.id < 4 && id < 4 && call.id != id && id !in s.flags.users
    ensures id !in Step(s, call).flags.users
  {
  }

  lemma {:induction false} ReleasedIsNoUser(s: Clocks, calls: Calls, id: nat)
    requires Inv(s) && s.flags == NONE && id < 4 && Released(calls, id)
    ensures id !in Run(s, calls).flags.users
  {
    if calls != [] {
      var last, init: Calls := calls[|calls| - 1], calls[..|calls| - 1];
      RunKeeps(s, init);
      if last.id == id {
        DisabledKeeps(Run(s, init), id);
      } else {
        ReleasedIsNoUser(s, init, id);
        OthersStep(Run(s, init), last, id);
      }
    }
  }

  /** From a stopped PLL on, whatever the run: if every controller was disabled last, PLLC4 is stopped again. */
  lemma AllReleased(s: Clocks, calls: Calls)
    requires Inv(s) && s.flags == NONE
    requires Released(calls, 0) && Released(calls, 1) && Released(calls, 2) && Released(calls, 3)
    ensures !Run(s, calls).running && Run(s, calls).flags == NONE
  {
    RunKeeps(s, calls);
    ReleasedIsNoUser(s, calls, 0);
    ReleasedIsNoUser(s, calls, 1);
    ReleasedIsNoUser(s, calls, 2);
    ReleasedIsNoUser(s, calls, 3);
  }

  // ----- the driver

  lemma EnableOff(s: Clocks, t: Clocks, id: nat)
    requires Inv(s) && id < 4 && t == s.(enabled := s.enabled[id := false])
    ensures Inv(t)
  {
    forall k | 0 <= k < 4
      ensures Served(t, k) && Cached(t, k)
    {
      assert Served(s, k) && Cached(s, k);
    }
  }

  class Driver {
    var flags: Flags
    var running: bool
    var table: seq<Setting>
    var source: seq<nat>
    var divisor: seq<nat>
    var enabled: seq<bool>

    function State(): Clocks
      reads this
    {
      Clocks(flags, running, table, source, divisor, enabled)
    }

    /** At boot all sources are PLLP, and a controller may already be enabled. */
    constructor (enabled: seq<bool>, divisor: seq<nat>)
      requires |enabled| == |divisor| == 4
      ensures Inv(State()) && State() == AtBoot(enabled, divisor)
    {
      this.flags := NONE;
      this.running := false;
      this.table := [Setting(0, 0), Setting(0, 0), Setting(0, 0), Setting(0, 0)];
      this.source := [PLLP, PLLP, PLLP, PLLP];
      this.divisor := divisor;
      this.enabled := enabled;
    }

    /** _clock_enable_pllc4: the PLL is set up only if it is not on yet. */
    method EnablePll(user: nat)
      requires running <==> flags.on
      modifies this`flags, this`running
      ensures running && flags == Flags(old(flags).users + {user}, true)
    {
      flags := flags.(users := flags.users + {user});
      if flags.on {
        return;
      }
      running := false;
      running := true;
      flags := flags.(on := true);
    }

    /** _clock_disable_pllc4. */
    method DisablePll(user: nat)
      requires (running <==> flags.on) && (flags.on || flags == NONE)
      modifies this`flags, this`running
      ensures var users := old(flags).users - {user};
              if users == {} then flags == NONE && !running
              else flags == old(flags).(users := users) && running == old(running)
    {
      flags := flags.(users := flags.users - {user});
      if flags.users != {} || !flags.on {
        return;
      }
      running := false;
      flags := NONE;
    }

    /** A source register is written only while its controller is disabled, and so keeps every controller served. */
    method SetSource(id: nat, value: nat, div: nat)
      requires id < 4 && Shape(State()) && !enabled[id] && forall k :: 0 <= k < 4 ==> Served(State(), k)
      modifies this`source, this`divisor
      ensures source == old(source)[id := value] && divisor == old(divisor)[id := div]
      ensures forall k :: 0 <= k < 4 ==> Served(State(), k)
    {
      ghost var s := State();
      source, divisor := source[id := value], divisor[id := div];
      assert forall k :: 0 <= k < 4 ==> Served(s, k) ==> Served(State(), k);
    }

    method ClearEnable(id: nat)
      requires id < 4 && Shape(State()) && forall k :: 0 <= k < 4 ==> Served(State(), k)
      modifies this`enabled
      ensures enabled == old(enabled)[id := false] && forall k :: 0 <= k < 4 ==> Served(State(), k)
    {
      ghost var s := State();
      enabled := enabled[id := false];
      assert forall k :: 0 <= k < 4 ==> Served(s, k) ==> Served(State(), k);
    }

    method SetEnable(id: nat)
      requires id < 4 && Shape(State()) && (source[id] != PLLP ==> id in flags.users)
      requires forall k :: 0 <= k < 4 ==> Served(State(), k)
      modifies this`enabled
      ensures enabled == old(enabled)[id := true] && forall k :: 0 <= k < 4 ==> Served(State(), k)
    {
      ghost var s := State();
      enabled := enabled[id := true];
      assert forall k :: 0 <= k < 4 ==> Served(s, k) ==> Served(State(), k);
    }

    /** The choice by rate in _clock_sdmmc_config_clock_host. */
    static method Rate(clock0: u32, id: nat, rate: u32) returns (clock: u32, src: nat, div: nat)
      requires id < 4
      ensures clock == RealOr(rate, clock0) && src == SourceOf(id, rate) && div == DivisorOf(rate)
    {
      clock, src, div := clock0, PLLP, 0;
      if rate == 25000 {
        clock, div := 24728, Divisor(33);
      } else if rate == 26000 {
        clock, div := 25500, Divisor(32);
      } else if rate == 50000 {
        clock, div := 48000, Divisor(17);
      } else if rate == 52000 {
        clock, div := 51000, Divisor(16);
      } else if rate == 82000 {
        clock, div := 81600, Divisor(10);
      } else if rate == 100000 {
        src, clock, div := PLLC4_OUT2, 99840, Divisor(4);
      } else if rate == 164000 {
        clock, div := 163200, Divisor(5);
      } else if rate == 200000 {
        src := if id == 0 || id == 2 then PLLC4_OUT2 else PLLC4_OUT2_LJ;
        clock, div := 199680, Divisor(2);
      }
    }

    /** _clock_sdmmc_config_clock_host; an id that does not exist is refused, and an unknown rate leaves the clock. */
    method ConfigHost(clock0: u32, id: nat, rate: u32) returns (ok: bool, clock: u32)
      requires Inv(State()) && (id < 4 ==> !enabled[id])
      modifies this`flags, this`running, this`table, this`source, this`divisor
      ensures Inv(State()) && (ok <==> id < 4)
      ensures ok ==> State() == Configured(old(State()), id, rate, clock0) && clock == RealOr(rate, clock0)
      ensures ok ==>
                source[id] == if rate == 100000 then 3 else if rate != 200000 then 0 else if id in {0, 2} then 3 else 1
      ensures ok ==> flags == if rate in {100000, 200000} then Flags(old(flags).users + {id}, true) else old(flags)
      ensures !ok ==> State() == old(State()) && clock == clock0
    {
      clock := clock0;
      if id > 3 {
        return false, clock;
      }
      ok := true;
      ghost var s := State();
      ConfiguredKeeps(s, id, rate, clock0);
      var src, div;
      clock, src, div := Rate(clock0, id, rate);
      table := table[id := Setting(rate, clock)];
      if src != PLLP {
        EnablePll(id);
      }
      assert forall k :: 0 <= k < 4 ==> Served(s, k) ==> Served(State(), k);
      SetSource(id, src, div);
    }

    /** clock_sdmmc_config_clock_source. */
    method ConfigSource(clock0: u32, id: nat, rate: u32) returns (clock: u32)
      requires Inv(State()) && id < 4
      modifies this
      ensures Inv(State()) && State() == Reconfigured(old(State()), id, rate, clock0)
      ensures table[id].clock == rate && enabled == old(enabled)
      ensures Known(rate) ==> clock == RealClock(rate)
    {
      ghost var s := State();
      assert Cached(s, id);
      if table[id].clock == rate {
        return table[id].actual;
      }
      ConfiguredKeeps(s, id, rate, clock0);
      var was := enabled[id];
      if was {
        ClearEnable(id);
      }
      EnableOff(s, State(), id);
      var ok: bool;
      ok, clock := ConfigHost(clock0, id, rate);
      if was {
        SetEnable(id);
      }
      assert enabled == s.enabled;
    }

    /** clock_sdmmc_enable. The wait at its end is divided by the clock: for an unknown rate there is no result. */
    method Enable(id: nat, rate: u32) returns (cycles: Option<nat>)
      requires Inv(State()) && id < 4
      modifies this
      ensures Inv(State()) && State() == Enabled(old(State()), id, rate) && enabled == old(enabled)[id := true]
      ensures cycles == if Known(rate) then Some((100_000 + RealClock(rate) - 1) / RealClock(rate)) else None
    {
      ghost var s := State();
      EnabledKeeps(s, id, rate);
      if enabled[id] {
        ClearEnable(id);
      }
      EnableOff(s, State(), id);
      var ok, clock := ConfigHost(0, id, rate);
      SetEnable(id);
      assert enabled == s.enabled[id := true];
      cycles := if clock == 0 then None else Some((100 * 1000 + clock - 1) / clock);
    }

    /** clock_sdmmc_disable. */
    method Disable(id: nat)
      requires Inv(State()) && id < 4
      modifies this
      ensures Inv(State()) && State() == Disabled(old(State()), id) && enabled == old(enabled)[id := false]
    {
      DisabledKeeps(State(), id);
      ClearEnable(id);
      DisablePll(id);
    }
  }
}
