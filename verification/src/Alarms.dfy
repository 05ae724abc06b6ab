/**
 The HAL's alarms (alt_alarm_start.c, alt_tick.c): a 32-bit tick counter that wraps, and per alarm
 a 32-bit time and one rollover bit, which together stand for an absolute deadline.
 */
module Alarms {
  import opened Bytes

  const WRAP := 0x1_0000_0000

  // ------------------------------------------------------------- the encoding

  datatype Code = Code(time: Dword, rollover: bool)

  /**
   The code stands for deadline d at absolute tick now: in this round of the counter, or with the rollover bit
   in the next. On the last tick of a round that tick of the next one needs no bit, as time compares from 0 on.
   */
  ghost predicate Encodes(c: Code, d: nat, now: nat) {
    && c.time == d % WRAP
    && (d / WRAP == now / WRAP + (if c.rollover then 1 else 0) || (d == now + WRAP && d % WRAP == WRAP - 1 && !c.rollover))
  }

  /** The one delay that does not work, unless the counter is about to wrap. */
  predicate TooLong(delay: Dword, nticks: Dword) {
    delay == WRAP - 1 && nticks != WRAP - 1
  }

  /** What alt_alarm_start stores. */
  function Armed(nticks: Dword, current: Dword): Code {
    var time := (nticks + current + 1) % WRAP;
    Code(time, time < current)
  }

  /** What alt_tick does to the code first. */
  function Unrolled(c: Code, nticks: Dword): Code {
    if c.rollover && nticks == 0 then c.(rollover := false) else c
  }

  predicate Due(c: Code, nticks: Dword) {
    c.time <= nticks && !c.rollover
  }

  /** What alt_tick stores after a callback that returned r. */
  function Rearmed(c: Code, r: Dword, nticks: Dword): Code {
    var time := (c.time + r) % WRAP;
    Code(time, c.rollover || time < nticks)
  }

  lemma Parts(n: nat)
    ensures n == WRAP * (n / WRAP) + n % WRAP && 0 <= n % WRAP < WRAP
  {
  }

  lemma OneFurther(a: nat, k: nat)
    requires k < WRAP
    ensures (a + k) % WRAP == if a % WRAP + k < WRAP then a % WRAP + k else a % WRAP + k - WRAP
    ensures (a + k) / WRAP == if a % WRAP + k < WRAP then a / WRAP else a / WRAP + 1
    ensures (a % WRAP + k) % WRAP == (a + k) % WRAP
  {
    var q, r := a / WRAP, a % WRAP;
    if r + k < WRAP {
      ModUnique(a + k, WRAP, q, r + k);
    } else {
      ModUnique(a + k, WRAP, q + 1, r + k - WRAP);
      ModUnique(r + k, WRAP, 1, r + k - WRAP);
    }
  }

  /** Every delay is encoded, except the longest one before the last tick of a round. */
  lemma ArmedEncodes(nticks: Dword, now: nat)
    ensures Encodes(Armed(nticks, now % WRAP), now + nticks + 1, now) <==> !TooLong(nticks, now % WRAP)
  {
    Parts(now);
    if nticks < WRAP - 1 {
      OneFurther(now, nticks + 1);
    } else {
      ModUnique(now + WRAP, WRAP, now / WRAP + 1, now % WRAP);
      ModUnique(nticks + now % WRAP + 1, WRAP, 1, now % WRAP);
    }
  }

  /** An alarm started with that delay goes off on the very next tick, 2^32 - 1 ticks early. */
  lemma LongestDelay(now: nat)
    ensures var nticks' := (now + 1) % WRAP;
            Due(Unrolled(Armed(WRAP - 1, now % WRAP), nticks'), nticks') <==> TooLong(WRAP - 1, now % WRAP)
  {
    ModUnique(WRAP - 1 + now % WRAP + 1, WRAP, 1, now % WRAP);
    OneFurther(now, 1);
  }

  /** A tick before or at the deadline keeps the encoding, and the alarm is due exactly at the deadline. */
  lemma TickEncodes(c: Code, d: nat, now: nat)
    requires Encodes(c, d, now) && now < d
    ensures var c' := Unrolled(c, (now + 1) % WRAP);
            Encodes(c', d, now + 1) && (Due(c', (now + 1) % WRAP) <==> d == now + 1)
  {
    Parts(now);
    Parts(d);
    OneFurther(now, 1);
  }

  /** After a callback the code stands for the deadline r ticks later. */
  lemma RearmedEncodes(c: Code, d: nat, r: Dword)
    requires Encodes(c, d, d) && !c.rollover && r != 0
    ensures Encodes(Rearmed(c, r, d % WRAP), d + r, d)
  {
    OneFurther(d, r);
  }

  // ------------------------------------------------------------- one alarm, as a value

  /** A callback: the absolute tick it ran on and what it returned. */
  datatype Firing = Firing(at: nat, next: Dword)

  /** An alarm started on tick started with the delay asked, and its callbacks since then. */
  datatype Entry = Entry(code: Code, started: nat, asked: Dword, log: seq<Firing>)

  function Last(log: seq<Firing>): Firing
    requires log != []
  {
    log[|log| - 1]
  }

  /** The tick of the next callback. */
  function Deadline(e: Entry): nat {
    if e.log == [] then e.started + e.asked + 1 else Last(e.log).at + Last(e.log).next
  }

  /** First on the (asked + 1)-th tick, then each time as many ticks later as the callback returned. */
  ghost predicate OnTime(e: Entry) {
    && (e.log != [] ==> e.log[0].at == e.started + e.asked + 1)
    && forall i :: 0 <= i < |e.log| - 1 ==> e.log[i].next != 0 && e.log[i + 1].at == e.log[i].at + e.log[i].next
  }

  /** Every callback due has been made, on its tick, and the next one is still to come. */
  ghost predicate Waiting(e: Entry, now: nat) {
    && OnTime(e) && now < Deadline(e) && Encodes(e.code, Deadline(e), now)
    && (e.log != [] ==> Last(e.log).next != 0)
  }

  function Fires(e: Entry, nticks: Dword): bool {
    Due(Unrolled(e.code, nticks), nticks)
  }

  /** The alarm's turn in tick number now, with r what its callback returns if it is called. */
  function Turn(e: Entry, nticks: Dword, now: nat, r: Dword): Entry {
    var c := Unrolled(e.code, nticks);
    if !Due(c, nticks) then e.(code := c)
    else e.(code := if r == 0 then c else Rearmed(c, r, nticks), log := e.log + [Firing(now, r)])
  }

  /** A waiting alarm is called back exactly on its deadline, and waits again unless it returned 0. */
  lemma TurnOnTime(e: Entry, now: nat, r: Dword)
    requires Waiting(e, now)
    ensures var e' := Turn(e, (now + 1) % WRAP, now + 1, r);
            && (Fires(e, (now + 1) % WRAP) <==> Deadline(e) == now + 1)
            && OnTime(e') && (Waiting(e', now + 1) || (Deadline(e) == now + 1 && r == 0))
  {
    hide Encodes, Due, Unrolled, Rearmed, OnTime;
    TickEncodes(e.code, Deadline(e), now);
    var e' := Turn(e, (now + 1) % WRAP, now + 1, r);
    if Deadline(e) == now + 1 {
      var c := Unrolled(e.code, (now + 1) % WRAP);
      DueIsUnrolled(c, (now + 1) % WRAP);
      if r != 0 { RearmedEncodes(c, now + 1, r); }
      OneMore(e, Firing(now + 1, r), e'.code);
    } else {
      SameLog(e, e'.code);
    }
  }

  lemma OneMore(e: Entry, f: Firing, c: Code)
    requires OnTime(e) && f.at == Deadline(e) && (e.log != [] ==> Last(e.log).next != 0)
    ensures OnTime(e.(code := c, log := e.log + [f]))
  {
  }

  lemma SameLog(e: Entry, c: Code)
    requires OnTime(e)
    ensures OnTime(e.(code := c))
  {
  }

  lemma DueIsUnrolled(c: Code, nticks: Dword)
    requires Due(c, nticks)
    ensures !c.rollover
  {
  }

  lemma TurnFirst(e: Entry, now: nat, r: Dword, d: nat)
    requires Waiting(e, now)
    requires if now < d then e.log == [] && Deadline(e) == d else |e.log| > 0 && e.log[0].at == d
    ensures var e' := Turn(e, (now + 1) % WRAP, now + 1, r);
            if now + 1 < d then e'.log == [] && Deadline(e') == d && !Fires(e, (now + 1) % WRAP) else |e'.log| > 0 && e'.log[0].at == d
  {
    TurnOnTime(e, now, r);
  }

  /** A fresh alarm waits for its deadline, unless the delay is too long. */
  lemma StartedWaits(now: nat, delay: Dword)
    ensures Waiting(Entry(Armed(delay, now % WRAP), now, delay, []), now) <==> !TooLong(delay, now % WRAP)
  {
    hide Encodes, Armed;
    ArmedEncodes(delay, now);
  }

  // ------------------------------------------------------------- the list

  type Address = nat              // of an alt_alarm; 0 is the null pointer

  /** The elements that stay. */
  ghost function Kept(s: seq<Address>, stays: seq<bool>): seq<Address>
    requires |s| == |stays|
  {
    if s == [] then []
    else Kept(s[..|s| - 1], stays[..|s| - 1]) + (if stays[|s| - 1] then [s[|s| - 1]] else [])
  }

  ghost predicate Distinct(s: seq<Address>) {
    forall i, j :: 0 <= i < j < |s| ==> s[i] != s[j]
  }

  lemma {:induction false} KeptThose(s: seq<Address>, stays: seq<bool>)
    requires |s| == |stays| && Distinct(s)
    ensures Distinct(Kept(s, stays))
    ensures forall a :: a in Kept(s, stays) ==> a in s
    ensures forall k :: 0 <= k < |s| ==> (s[k] in Kept(s, stays) <==> stays[k])
    decreases |s|
  {
    if s != [] {
      var n := |s| - 1;
      var front, kept := s[..n], Kept(s[..n], stays[..n]);
      KeptThose(front, stays[..n]);
      assert s == front + [s[n]] && s[n] !in front;
      hide Kept;
      forall k | 0 <= k < n ensures s[k] in kept <==> stays[k] {
        assert s[k] == front[k] && stays[k] == stays[..n][k];
      }
    }
  }

  /** One element further: i is where the rest of the list begins. */
  lemma KeptNext(all: seq<Address>, stays: seq<bool>, list: seq<Address>, i: nat, stay: bool)
    requires |stays| <= |all| && list == Kept(all[..|stays|], stays) + all[|stays|..] && i == |Kept(all[..|stays|], stays)| < |list|
    ensures |stays| < |all| && list[i] == all[|stays|]
    ensures var stays', list' := stays + [stay], if stay then list else list[..i] + list[i + 1..];
            && list' == Kept(all[..|stays'|], stays') + all[|stays'|..]
            && |Kept(all[..|stays'|], stays')| == if stay then i + 1 else i
  {
    var n := |stays|;
    var k, rest := Kept(all[..n], stays), all[n + 1..];
    assert all[n..] == [all[n]] + rest;
    assert all[..n + 1][..n] == all[..n] && (stays + [stay])[..n] == stays;
    assert Kept(all[..n + 1], stays + [stay]) == k + if stay then [all[n]] else [];
    hide Kept;
    assert list == k + [all[n]] + rest;
    assert list[..i] == k && list[i + 1..] == rest;
  }

  datatype StartResult = Started | Invalid | NotSupported

  class Clock {
    var nticks: Dword                    // _alt_nticks
    const rate: Dword                    // _alt_tick_rate
    var list: seq<Address>               // alt_alarm_list
    var codes: map<Address, Code>        // time and rollover of the alarm structures
    ghost var now: nat                   // ticks since reset, not wrapped
    ghost var alarms: map<Address, Entry>  // the same structures with their histories
    ghost var early: set<Address>        // those started with a delay too long for the counter

    constructor (rate: Dword)
      ensures Valid() && list == [] && now == 0 && this.rate == rate
    {
      nticks, list, codes, now, alarms, early := 0, [], map[], 0, map[], {};
      this.rate := rate;
    }

    ghost predicate Mirrored()
      reads this`codes, this`alarms
    {
      codes.Keys == alarms.Keys && forall a :: a in codes ==> alarms[a].code == codes[a]
    }

    ghost predicate Valid()
      reads this
    {
      && nticks == now % WRAP && Mirrored() && Distinct(list) && (forall a :: a in list ==> a in codes)
      && forall a :: a in list && a !in early ==> Waiting(alarms[a], now)
    }

    /** alt_alarm_start */
    method Start(alarm: Address, delay: Dword) returns (res: StartResult)
      requires Valid() && alarm !in list
      modifies this`list, this`codes, this`alarms, this`early
      ensures Valid()
      ensures res == if rate == 0 then NotSupported else if alarm == 0 then Invalid else Started
      ensures res != Started ==> list == old(list) && alarms == old(alarms) && early == old(early)
      ensures res == Started ==> list == [alarm] + old(list)
      ensures res == Started ==> alarms == old(alarms)[alarm := Entry(Armed(delay, nticks), now, delay, [])]
      ensures res == Started ==> early == if TooLong(delay, nticks) then old(early) + {alarm} else old(early) - {alarm}
    {
      hide Waiting;
      if rate == 0 { return NotSupported; }
      if alarm == 0 { return Invalid; }
      var current := nticks;
      var time := (delay + current + 1) % WRAP;
      var rollover := false;
      if time < current { rollover := true; }
      codes := codes[alarm := Code(time, rollover)];
      alarms := alarms[alarm := Entry(Armed(delay, nticks), now, delay, [])];
      early := if TooLong(delay, nticks) then early + {alarm} else early - {alarm};
      list := [alarm] + list;
      StartedWaits(now, delay);
      res := Started;
    }

    /** alt_alarm_stop, for an alarm that has been started at some time; harmless if it is off the list again. */
    method Stop(alarm: Address)
      requires Valid() && alarm in alarms
      modifies this`list
      ensures Valid() && forall a :: a in list <==> a in old(list) && a != alarm
    {
      hide Waiting;
      if alarm in list {
        var i :| 0 <= i < |list| && list[i] == alarm;
        list := list[..i] + list[i + 1..];
      }
    }

    /** One alarm's turn in a tick; r is what its callback returned, if it was called. */
    method Service(alarm: Address) returns (keep: bool, ghost r: Dword)
      requires Mirrored() && alarm in codes
      modifies this`codes, this`alarms
      ensures Mirrored() && alarms == old(alarms)[alarm := Turn(old(alarms)[alarm], nticks, now, r)]
      ensures keep <==> !(Fires(old(alarms)[alarm], nticks) && r == 0)
    {
      keep := true;
      r := 0;
      var time, rollover := codes[alarm].time, codes[alarm].rollover;
      if rollover && nticks == 0 {
        rollover := false;
      }
      if time <= nticks && !rollover {
        var next: Dword := *;  // the callback
        r := next;
        if next == 0 {
          keep := false;
        } else {
          time := (time + next) % WRAP;
          if time < nticks {
            rollover := true;
          }
        }
      }
      codes := codes[alarm := Code(time, rollover)];
      alarms := alarms[alarm := Turn(alarms[alarm], nticks, now, r)];
    }

    /** The walk along the list. */
    method ServeAll() returns (ghost answers: seq<Dword>, ghost stays: seq<bool>)
      requires Mirrored() && Distinct(list) && forall a :: a in list ==> a in codes
      modifies this`list, this`codes, this`alarms
      ensures Mirrored() && alarms.Keys == old(alarms).Keys
      ensures |answers| == |stays| == |old(list)| && list == Kept(old(list), stays)
      ensures forall a :: a in alarms && a !in old(list) ==> alarms[a] == old(alarms)[a]
      ensures forall k :: 0 <= k < |answers| ==> HadTurn(old(list)[k], old(alarms), answers[k], stays[k])
    {
      ghost var all, was := list, alarms;
      var i := 0;
      answers, stays := [], [];
      WalkStarts(all, was);
      hide Walked, Distinct, Turn, Fires, Kept;
      while i < |list|
        invariant Mirrored() && Walked(all, was, answers, stays, list, alarms, i)
        decreases |all| - |stays|
      {
        NextIs(all, was, answers, stays, list, alarms, i);
        var keep;
        ghost var r;
        ghost var l, m := list, alarms;
        keep, r := Service(list[i]);
        WalkOn(all, was, answers, stays, l, m, i, r, keep);
        answers, stays := answers + [r], stays + [keep];
        if keep {
          i := i + 1;
        } else {
          list := list[..i] + list[i + 1..];
        }
      }
      WalkEnds(all, was, answers, stays, list, alarms, i);
    }

    /** The alarms answered so far have had their turn, the others are as they were, and i is where they begin. */
    ghost predicate Walked(all: seq<Address>, was: map<Address, Entry>, answers: seq<Dword>, stays: seq<bool>,
                           l: seq<Address>, m: map<Address, Entry>, i: nat)
      reads this`nticks, this`now
    {
      && |answers| == |stays| <= |all| && m.Keys == was.Keys
      && l == Kept(all[..|stays|], stays) + all[|stays|..] && i == |Kept(all[..|stays|], stays)|
      && (forall k :: 0 <= k < |stays| ==> TookTurn(all[k], was, m, answers[k], stays[k]))
      && (forall a :: a in m && (a !in all || a in all[|stays|..]) ==> m[a] == was[a])
    }

    ghost predicate TookTurn(a: Address, was: map<Address, Entry>, m: map<Address, Entry>, r: Dword, stay: bool)
      reads this`nticks, this`now
    {
      && a in was && a in m && m[a] == Turn(was[a], nticks, now, r)
      && (stay <==> !(Fires(was[a], nticks) && r == 0))
    }

    lemma WalkStarts(all: seq<Address>, was: map<Address, Entry>)
      ensures Walked(all, was, [], [], all, was, 0)
    {
    }

    lemma NextIs(all: seq<Address>, was: map<Address, Entry>, answers: seq<Dword>, stays: seq<bool>,
                 l: seq<Address>, m: map<Address, Entry>, i: nat)
      requires Walked(all, was, answers, stays, l, m, i) && i < |l| && forall a :: a in all ==> a in was
      ensures |stays| < |all| && l[i] == all[|stays|] && l[i] in m
    {
      hide Kept;
      KeptNext(all, stays, l, i, true);
      assert all[|stays|] in all;
    }

    lemma WalkOn(all: seq<Address>, was: map<Address, Entry>, answers: seq<Dword>, stays: seq<bool>,
                 l: seq<Address>, m: map<Address, Entry>, i: nat, r: Dword, keep: bool)
      requires Walked(all, was, answers, stays, l, m, i) && i < |l| && Distinct(all) && (forall a :: a in all ==> a in was)
      requires l[i] in m && (keep <==> !(Fires(m[l[i]], nticks) && r == 0))
      ensures Walked(all, was, answers + [r], stays + [keep], if keep then l else l[..i] + l[i + 1..],
                     m[l[i] := Turn(m[l[i]], nticks, now, r)], if keep then i + 1 else i)
    {
      hide Turn, Fires, Kept;
      KeptNext(all, stays, l, i, keep);
      var n := |stays|;
      assert all[n..] == [all[n]] + all[n + 1..];
      assert all[n] in all[n..];
      assert forall k :: 0 <= k < n ==> all[k] != all[n];
      assert all[n] !in all[n + 1..];
      assert forall a :: a in all[n + 1..] ==> a in all[n..];
    }

    lemma WalkEnds(all: seq<Address>, was: map<Address, Entry>, answers: seq<Dword>, stays: seq<bool>,
                   l: seq<Address>, m: map<Address, Entry>, i: nat)
      requires Walked(all, was, answers, stays, l, m, i) && i >= |l|
      ensures |answers| == |stays| == |all| && l == Kept(all, stays) && m.Keys == was.Keys
      ensures forall k :: 0 <= k < |stays| ==> TookTurn(all[k], was, m, answers[k], stays[k])
      ensures forall a :: a in m && a !in all ==> m[a] == was[a]
    {
      assert all[..|all|] == all && all[|all|..] == [];
    }

    ghost predicate HadTurn(a: Address, was: map<Address, Entry>, r: Dword, stay: bool)
      reads this`alarms, this`nticks, this`now
    {
      TookTurn(a, was, alarms, r, stay)
    }

    /** alt_tick, for callbacks that start and stop no alarm themselves. */
    method Tick() returns (ghost answers: seq<Dword>)
      requires Valid()
      modifies this`nticks, this`list, this`now, this`codes, this`alarms
      ensures Valid() && now == old(now) + 1 && alarms.Keys == old(alarms).Keys
      ensures forall a :: a in alarms && a !in old(list) ==> alarms[a] == old(alarms)[a]
      // everyone had its turn; those called back with result 0 are gone, and no one else
      ensures |answers| == |old(list)| && forall a :: a in list ==> a in old(list)
      ensures forall k :: 0 <= k < |answers| ==> HadTurn(old(list)[k], old(alarms), answers[k], old(list)[k] in list)
    {
      hide Turn, Fires, Waiting, Kept;
      ghost var all, before, was := list, alarms, now;
      nticks := (nticks + 1) % WRAP;
      now := now + 1;
      OneFurther(was, 1);
      ghost var stays;
      answers, stays := ServeAll();
      KeptThose(all, stays);
      forall a | a in list && a !in early ensures Waiting(alarms[a], now) {
        var k :| 0 <= k < |all| && all[k] == a;
        assert HadTurn(all[k], before, answers[k], stays[k]);
        TurnOnTime(before[a], was, answers[k]);
      }
    }

    /** Any number of ticks: an alarm is called back on its deadline and not before. */
    method Run(n: nat)
      requires Valid()
      modifies this`nticks, this`list, this`now, this`codes, this`alarms
      ensures Valid() && now == old(now) + n && alarms.Keys == old(alarms).Keys && forall a :: a in list ==> a in old(list)
      ensures forall a :: a in old(list) && a !in early && old(alarms)[a].log == [] ==> FirstCall(a, Deadline(old(alarms)[a]))
    {
      hide Waiting, Turn, Fires, Deadline, Distinct;
      ghost var all, start := list, alarms;
      forall a | a in all && a !in early && start[a].log == [] ensures FirstCall(a, Deadline(start[a])) {
        StillToCome(a);
      }
      var i := 0;
      while i < n
        invariant 0 <= i <= n && Valid() && now == old(now) + i && alarms.Keys == start.Keys
        invariant forall a :: a in list ==> a in all
        invariant forall a :: a in all && a !in early && start[a].log == [] ==> FirstCall(a, Deadline(start[a]))
      {
        ghost var before, entries, was := list, alarms, now;
        ghost var answers := Tick();
        forall a | a in all && a !in early && start[a].log == [] ensures FirstCall(a, Deadline(start[a])) {
          if a in before {
            var k :| 0 <= k < |before| && before[k] == a;
            assert HadTurn(before[k], entries, answers[k], before[k] in list);
            TurnFirst(entries[a], was, answers[k], Deadline(start[a]));
          }
        }
        i := i + 1;
      }
    }

    lemma StillToCome(a: Address)
      requires Valid() && a in list && a !in early && alarms[a].log == []
      ensures FirstCall(a, Deadline(alarms[a]))
    {
    }

    /** Called back first on tick d, or still waiting for it. */
    ghost predicate FirstCall(a: Address, d: nat)
      reads this`now, this`list, this`alarms
    {
      && a in alarms
      && if now < d then a in list && alarms[a].log == [] && Deadline(alarms[a]) == d
         else |alarms[a].log| > 0 && alarms[a].log[0].at == d
    }
  }
}
