/**
 The interrupt-driven JTAG UART driver (altera_avalon_jtag_uart_init.c, _write.c, _read.c, fast
 driver, without an operating system). Thread code may be interrupted before every access to an
 index, a buffer slot or irq_enable: each such point calls Interrupts, which runs the handler any
 number of times on whatever the device answers.
 */
module JtagUart {
  import opened Bytes
  import opened Rings

  /** A read of the data register: RVALID, the character, and whether RAVAIL is not 0. */
  datatype Word = Word(valid: bool, more: bool, ch: Byte)

  /** The device says that characters remain only together with a valid one. */
  type DataWord = w: Word | w.valid || !w.more witness Word(false, false, 0)

  /** One pass of the handler: the control register it reads, and the data words it can read. */
  datatype Pass = Pass(ri: bool, wi: bool, wspace: nat, words: seq<DataWord>)

  datatype Outcome = Count(n: nat) | WouldBlock | IoError

  // ------------------------------------------------------------- the receive part of a pass

  datatype Drained = Drained(chars: seq<Byte>, mask: bool)

  /**
   The characters taken into room free slots by reading the words from the i-th on, and whether the
   receive interrupt is then turned off. Past the last word the register reads invalid and empty.
   */
  function Drain(room: nat, words: seq<Word>, i: nat, more: bool): Drained
    requires i <= |words|
    decreases room
  {
    if room == 0 then Drained([], more)
    else if i == |words| then Drained([], false)
    else if !words[i].valid then Drained([], words[i].more)
    else
      var d := Drain(room - 1, words, i + 1, words[i].more);
      Drained([words[i].ch] + d.chars, d.mask)
  }

  /** The result once got has been taken already. */
  function After(got: seq<Byte>, d: Drained): Drained {
    Drained(got + d.chars, d.mask)
  }

  lemma DrainOne(got: seq<Byte>, room: nat, words: seq<Word>, i: nat, more: bool)
    requires room > 0 && i < |words| && words[i].valid
    ensures After(got, Drain(room, words, i, more)) == After(got + [words[i].ch], Drain(room - 1, words, i + 1, words[i].more))
  {
    var d := Drain(room - 1, words, i + 1, words[i].more);
    assert got + ([words[i].ch] + d.chars) == got + [words[i].ch] + d.chars;
  }

  lemma DrainEnds(got: seq<Byte>, room: nat, words: seq<Word>, i: nat, more: bool)
    requires i <= |words|
    ensures room == 0 ==> After(got, Drain(room, words, i, more)) == Drained(got, more)
    ensures room > 0 && i == |words| ==> After(got, Drain(room, words, i, more)) == Drained(got, false)
    ensures room > 0 && i < |words| && !words[i].valid ==> After(got, Drain(room, words, i, more)) == Drained(got, words[i].more)
  {
  }

  /**
   What that comes to: the valid characters offered from word i on, in order, as many as there is room for; and
   the interrupt is turned off exactly when the ring is full and more characters remain.
   */
  lemma {:induction false} DrainTakes(room: nat, words: seq<DataWord>, i: nat, more: bool)
    requires i <= |words|
    ensures var n, d := |Drain(room, words, i, more).chars|, Drain(room, words, i, more);
            && n <= room && i + n <= |words|
            && (forall j :: i <= j < i + n ==> words[j].valid && d.chars[j - i] == words[j].ch)
            && (n < room ==> i + n == |words| || !words[i + n].valid)
            && (d.mask <==> n == room && if n == 0 then more else words[i + n - 1].more)
    decreases room
  {
    if room > 0 && i < |words| && words[i].valid {
      DrainTakes(room - 1, words, i + 1, words[i].more);
      var d, all := Drain(room - 1, words, i + 1, words[i].more), Drain(room, words, i, more);
      assert all.chars == [words[i].ch] + d.chars;
      forall j | i <= j < i + |all.chars| ensures words[j].valid && all.chars[j - i] == words[j].ch {
        if j > i { assert d.chars[j - (i + 1)] == words[j].ch; }
      }
    }
  }

  /** With an honest device the interrupt is turned off only when the ring is full. */
  lemma {:induction false} MaskedOnlyWhenFull(room: nat, words: seq<DataWord>, i: nat, more: bool)
    requires i <= |words|
    ensures |Drain(room, words, i, more).chars| <= room
    ensures Drain(room, words, i, more).mask ==> |Drain(room, words, i, more).chars| == room
    decreases room
  {
    if room > 0 && i < |words| && words[i].valid {
      MaskedOnlyWhenFull(room - 1, words, i + 1, words[i].more);
    }
  }

  /** The assumption is needed: an invalid word that claims more turns the interrupt off on an empty ring. */
  lemma MaskedWhenEmpty(ch: Byte)
    ensures Drain(BUF - 1, [Word(false, true, ch)], 0, true) == Drained([], true)
  {
  }

  // ------------------------------------------------------------- a run of the handler

  /** What the handler changes: the characters that came and went so far, and the interrupt enables. */
  datatype Link = Link(received: seq<Byte>, sent: seq<Byte>, re: bool, we: bool)

  /** One pass, with delivered characters of those received already read, and accepted those to send. */
  function AfterPass(l: Link, p: Pass, delivered: nat, accepted: seq<Byte>): Link {
    var d := Drain(AtLeast0(BUF - 1 - (|l.received| - delivered)), p.words, 0, true);
    var a := if p.ri then l.(received := l.received + d.chars, re := l.re && !d.mask) else l;
    var waiting := AtLeast0(|accepted| - |l.sent|);
    if !p.wi || |l.sent| > |accepted| then a
    else a.(sent := accepted[..|l.sent| + Min(p.wspace, waiting)], we := a.we && p.wspace <= waiting)
  }

  /** The passes up to the first that finds neither interrupt pending. */
  function Served(passes: seq<Pass>): (n: nat)
    ensures n <= |passes| && (n < |passes| ==> !passes[n].ri && !passes[n].wi)
    ensures forall i :: 0 <= i < n ==> passes[i].ri || passes[i].wi
  {
    if passes == [] || !(passes[0].ri || passes[0].wi) then 0 else 1 + Served(passes[1..])
  }

  ghost function AfterPasses(l: Link, passes: seq<Pass>, n: nat, delivered: nat, accepted: seq<Byte>): Link
    requires n <= |passes|
  {
    if n == 0 then l else AfterPass(AfterPasses(l, passes, n - 1, delivered, accepted), passes[n - 1], delivered, accepted)
  }

  /**
   What one pass does, told apart by the two pending bits: characters come in for RI only, and one does if it is
   offered and there is room; characters go out for WI only, and one does if it is waiting and there is space.
   */
  lemma PassMeans(l: Link, p: Pass, delivered: nat, accepted: seq<Byte>)
    requires delivered <= |l.received| < delivered + BUF && l.sent <= accepted
    ensures var l' := AfterPass(l, p, delivered, accepted);
            && l.received <= l'.received && l.sent <= l'.sent <= accepted && |l'.received| < delivered + BUF
            && (!p.ri ==> l'.received == l.received && l'.re == l.re)
            && (!p.wi ==> l'.sent == l.sent && l'.we == l.we)
            && (p.ri && p.words != [] && p.words[0].valid && |l.received| - delivered < BUF - 1 ==>
                  l.received + [p.words[0].ch] <= l'.received)
            && (p.wi && p.wspace > 0 && |l.sent| < |accepted| ==> |l.sent| < |l'.sent|)
            && (l.re && !l'.re ==> p.ri && |l'.received| - delivered == BUF - 1)
            && (l.we && !l'.we ==> p.wi && l'.sent == accepted)
            && (!l.re ==> !l'.re) && (!l.we ==> !l'.we)
  {
    DrainTakes(BUF - 1 - (|l.received| - delivered), p.words, 0, true);
    hide Drain;
  }

  lemma {:induction false} NoneOfAKind(l: Link, passes: seq<Pass>, n: nat, delivered: nat, accepted: seq<Byte>)
    requires n <= |passes|
    ensures var l' := AfterPasses(l, passes, n, delivered, accepted);
            && ((forall i :: 0 <= i < n ==> !passes[i].ri) ==> l'.received == l.received && l'.re == l.re)
            && ((forall i :: 0 <= i < n ==> !passes[i].wi) ==> l'.sent == l.sent && l'.we == l.we)
  {
    if n > 0 {
      NoneOfAKind(l, passes, n - 1, delivered, accepted);
      hide Drain;
    }
  }

  /** What the first pass has done stays done. */
  lemma {:induction false} PassesGrow(l: Link, passes: seq<Pass>, n: nat, delivered: nat, accepted: seq<Byte>)
    requires 0 < n <= |passes| && delivered <= |l.received| < delivered + BUF && l.sent <= accepted
    ensures var l' := AfterPasses(l, passes, n, delivered, accepted);
            && l'.sent <= accepted && |l'.received| < delivered + BUF && l.received <= l'.received
            && (passes[0].ri && passes[0].words != [] && passes[0].words[0].valid && |l.received| - delivered < BUF - 1 ==>
                  l.received + [passes[0].words[0].ch] <= l'.received)
            && (passes[0].wi && passes[0].wspace > 0 && |l.sent| < |accepted| ==> |l.sent| < |l'.sent|)
  {
    hide AfterPass;
    if n == 1 {
      assert AfterPasses(l, passes, 0, delivered, accepted) == l;
      PassMeans(l, passes[0], delivered, accepted);
    } else {
      PassesGrow(l, passes, n - 1, delivered, accepted);
      PassMeans(AfterPasses(l, passes, n - 1, delivered, accepted), passes[n - 1], delivered, accepted);
    }
  }

  lemma Joined(d: seq<Byte>, part: seq<Byte>, r0: seq<Byte>, r: seq<Byte>)
    requires d <= r0 <= r && |d| + |part| <= |r0| && part == r0[|d|..|d| + |part|]
    ensures r[..|d| + |part|] == d + part
  {
    assert r[..|r0|] == r0;
    assert r0[..|d|] + r0[|d|..|d| + |part|] == r0[..|d| + |part|] == r[..|d| + |part|];
  }

  // ------------------------------------------------------------- the driver state

  class Uart {
    const rxBuf: array<Byte>
    const txBuf: array<Byte>
    var rxIn: nat
    var rxOut: nat
    var txIn: nat
    var txOut: nat
    var re: bool                    // irq_enable, as last written to the control register
    var we: bool
    ghost var accepted: seq<Byte>   // by write
    ghost var sent: seq<Byte>       // to the data register
    ghost var received: seq<Byte>   // from the data register
    ghost var delivered: seq<Byte>  // by read
    ghost var txKick: bool          // a writer has published and not yet enabled
    ghost var rxKick: bool          // a reader has taken data and not yet enabled

    constructor ()
      ensures Inv() && accepted == sent == received == delivered == [] && re && !txKick && !rxKick
      ensures fresh(rxBuf) && fresh(txBuf)
    {
      rxBuf, txBuf := new Byte[BUF], new Byte[BUF];
      rxIn, rxOut, txIn, txOut := 0, 0, 0, 0;
      re, we := true, false;
      accepted, sent, received, delivered, txKick, rxKick := [], [], [], [], false, false;
    }

    ghost predicate Tx()
      reads this`txIn, this`txOut, this`accepted, this`sent, txBuf
    {
      IsRing(txBuf[..], txIn, txOut, accepted, sent)
    }

    ghost predicate Rx()
      reads this`rxIn, this`rxOut, this`received, this`delivered, rxBuf
    {
      IsRing(rxBuf[..], rxIn, rxOut, received, delivered)
    }

    /** Data waiting to go out is going to be noticed. */
    ghost predicate TxAwake()
      reads this`we, this`txKick, this`accepted, this`sent
    {
      |sent| < |accepted| ==> we || txKick
    }

    /** While the receive interrupt is off there is something to read, or a reader about to turn it on. */
    ghost predicate RxAwake()
      reads this`re, this`rxKick, this`received, this`delivered
    {
      !re ==> |delivered| < |received| || rxKick
    }

    /** Holds at every point where an interrupt can strike. */
    ghost predicate Inv()
      reads this`txIn, this`txOut, this`accepted, this`sent, this`rxIn, this`rxOut, this`received, this`delivered
      reads this`we, this`txKick, this`re, this`rxKick, rxBuf, txBuf
    {
      rxBuf != txBuf && Tx() && Rx() && TxAwake() && RxAwake()
    }

    /** At every point where an interrupt can strike, both directions are first in, first out. */
    lemma Fifos()
      requires Inv()
      ensures txBuf.Length == BUF && accepted == sent + Contents(txBuf[..], txIn, txOut)
      ensures rxBuf.Length == BUF && received == delivered + Contents(rxBuf[..], rxIn, rxOut)
      ensures |Contents(txBuf[..], txIn, txOut)| < BUF && |Contents(rxBuf[..], rxIn, rxOut)| < BUF
      ensures Contents(txBuf[..], txIn, txOut) != [] ==> we || txKick
      ensures !re ==> Contents(rxBuf[..], rxIn, rxOut) != [] || rxKick
    {
      RingShape();
      hide IsRing, Contents;
      Fifo(txBuf[..], txIn, txOut, accepted, sent);
      Fifo(rxBuf[..], rxIn, rxOut, received, delivered);
    }

    // ----------------------------------------------------------- the interrupt handler

    lemma RxState()
      requires rxBuf.Length == BUF && Rx()
      ensures RxRoom() >= 0 && delivered <= received && rxIn < BUF
      ensures (rxIn + 1) % BUF == rxOut <==> RxRoom() == 0
    {
      FullIff(rxBuf[..], rxIn, rxOut, received, delivered);
    }

    lemma TxState()
      requires txBuf.Length == BUF && Tx()
      ensures sent <= accepted && txOut < BUF
      ensures txOut == txIn <==> |sent| == |accepted|
    {
      EmptyIff(txBuf[..], txIn, txOut, accepted, sent);
    }

    ghost function RxRoom(): int
      reads this`received, this`delivered
    {
      BUF - 1 - (|received| - |delivered|)
    }

    method ReceiveOne(ch: Byte)
      requires rxBuf.Length == BUF && Rx() && RxRoom() > 0
      modifies this`rxIn, this`received, rxBuf
      ensures Rx() && received == old(received) + [ch]
    {
      PushOne(rxBuf[..], rxIn, rxOut, received, delivered, ch);
      rxBuf[rxIn] := ch;
      rxIn := (rxIn + 1) % BUF;
      received := received + [ch];
    }

    /** The receive loop: takes characters while there is room and the device offers valid ones. */
    method DrainFifo(words: seq<DataWord>) returns (more: bool)
      requires rxBuf.Length == BUF && Rx() && RxRoom() >= 0
      modifies this`rxIn, this`received, rxBuf
      ensures Rx()
      ensures Drained(received, more) == After(old(received), Drain(old(RxRoom()), words, 0, true))
    {
      hide IsRing, Rx, Drain, After;
      ghost var r0, room := received, RxRoom();
      ghost var got: seq<Byte> := [];
      more := true;
      var i := 0;
      assert r0 + got == r0;
      while true
        invariant Rx() && i <= |words| && received == r0 + got && |got| <= room
        invariant After(r0 + got, Drain(room - |got|, words, i, more)) == After(r0, Drain(room, words, 0, true))
        decreases |words| - i
      {
        RxState();
        DrainEnds(r0 + got, room - |got|, words, i, more);
        if (rxIn + 1) % BUF == rxOut { break; }
        if i == |words| { more := false; break; }
        ghost var before := more;
        more := words[i].more;
        if !words[i].valid { break; }
        DrainOne(r0 + got, room - |got|, words, i, before);
        ReceiveOne(words[i].ch);
        got := got + [words[i].ch];
        assert r0 + got == received;
        i := i + 1;
      }
    }

    /** The receive part, and the turning off of its interrupt when data must stay in the device. */
    method IrqReceive(words: seq<DataWord>)
      requires Inv()
      modifies this`rxIn, this`re, this`received, rxBuf
      ensures Inv() && old(RxRoom()) >= 0
      ensures received == old(received) + Drain(old(RxRoom()), words, 0, true).chars
      ensures re == (old(re) && !Drain(old(RxRoom()), words, 0, true).mask)
    {
      assert Tx() && TxAwake();
      hide IsRing, Rx, Tx, Drain;
      RxState();
      MaskedOnlyWhenFull(RxRoom(), words, 0, true);
      var more := DrainFifo(words);
      if more { re := false; }
    }

    method SendOne()
      requires txBuf.Length == BUF && Tx() && |sent| < |accepted|
      modifies this`txOut, this`sent
      ensures Tx() && |sent| == |old(sent)| + 1
    {
      Take(txBuf[..], txIn, txOut, accepted, sent, 1);
      assert txBuf[..][txOut..txOut + 1] == [txBuf[txOut]];
      assert accepted[|sent|..|sent| + 1] == [accepted[|sent|]];
      ghost var ch := txBuf[txOut];  // IOWR_ALTERA_AVALON_JTAG_UART_DATA
      sent := sent + [ch];
      txOut := (txOut + 1) % BUF;
    }

    /** The transmit loop, and the turning off of its interrupt when there is nothing left to send. */
    method IrqTransmit(wspace: nat)
      requires Inv()
      modifies this`txOut, this`we, this`sent
      ensures Inv() && old(|sent|) <= |accepted|
      ensures sent == accepted[..|old(sent)| + Min(wspace, |accepted| - |old(sent)|)]
      ensures we == (old(we) && wspace <= |accepted| - |old(sent)|)
    {
      assert Rx() && RxAwake();
      hide IsRing, Rx, Tx;
      ghost var s0 := |sent|;
      var space := wspace;
      TxState();
      while space > 0 && txOut != txIn
        invariant Tx() && we == old(we) && s0 <= |sent| <= |accepted| && space == wspace - (|sent| - s0)
        decreases space
      {
        TxState();
        SendOne();
        TxState();
        space := space - 1;
      }
      TxState();
      if space > 0 { we := false; }
    }

    ghost function Now(): Link
      reads this`received, this`sent, this`re, this`we
    {
      Link(received, sent, re, we)
    }

    /** The body of its loop: receive, then transmit. */
    method IrqPass(p: Pass)
      requires Inv()
      modifies this`rxIn, this`re, this`received, rxBuf, this`txOut, this`we, this`sent
      ensures Inv() && old(sent) <= sent && old(received) <= received
      ensures Now() == AfterPass(old(Now()), p, |delivered|, accepted)
    {
      hide IsRing, Drain;
      SentGrows();
      if p.ri { IrqReceive(p.words); }
      if p.wi {
        SentGrows();
        IrqTransmit(p.wspace);
      }
    }

    /** altera_avalon_jtag_uart_irq: pass after pass until neither interrupt is pending. */
    method Irq(passes: seq<Pass>)
      requires Inv()
      modifies this`rxIn, this`re, this`received, rxBuf, this`txOut, this`we, this`sent
      ensures Inv() && old(sent) <= sent && old(received) <= received
      ensures Now() == AfterPasses(old(Now()), passes, Served(passes), |delivered|, accepted)
      // without the one pending bit in any of them nothing comes in, without the other nothing goes out
      ensures (forall i :: 0 <= i < Served(passes) ==> !passes[i].ri) ==> received == old(received) && re == old(re)
      ensures (forall i :: 0 <= i < Served(passes) ==> !passes[i].wi) ==> sent == old(sent) && we == old(we)
      // a character offered to the first is taken if there is room, and one that waits is sent if there is space
      ensures passes != [] && passes[0].ri && passes[0].words != [] && passes[0].words[0].valid && old(RxRoom()) > 0 ==>
                old(received) + [passes[0].words[0].ch] <= received
      ensures passes != [] && passes[0].wi && passes[0].wspace > 0 && old(|sent|) < |accepted| ==> |sent| > old(|sent|)
    {
      hide IsRing, AfterPasses, AfterPass;
      ghost var n := Served(passes);
      var i := 0;
      IrqStarts(passes);
      RingShape();
      SentGrows();
      while i < |passes|
        invariant 0 <= i <= n && Inv() && old(sent) <= sent && old(received) <= received
        invariant Now() == AfterPasses(old(Now()), passes, i, |delivered|, accepted)
      {
        var p := passes[i];
        if !p.ri && !p.wi { break; }
        PassesOnward(old(Now()), passes, i);
        IrqPass(p);
        i := i + 1;
      }
      NoneOfAKind(old(Now()), passes, n, |delivered|, accepted);
      if n > 0 { PassesGrow(old(Now()), passes, n, |delivered|, accepted); }
    }

    lemma IrqStarts(passes: seq<Pass>)
      ensures Now() == AfterPasses(Now(), passes, 0, |delivered|, accepted)
    {
    }

    lemma PassesOnward(l: Link, passes: seq<Pass>, i: nat)
      requires i < |passes|
      ensures AfterPasses(l, passes, i + 1, |delivered|, accepted) ==
              AfterPass(AfterPasses(l, passes, i, |delivered|, accepted), passes[i], |delivered|, accepted)
    {
    }

    lemma SentGrows()
      requires Inv()
      ensures sent <= accepted && delivered <= received
    {
    }

    /** A point where interrupts are open: the handler runs any number of times. */
    method Interrupts()
      requires Inv()
      modifies this`rxIn, this`re, this`received, rxBuf, this`txOut, this`we, this`sent
      ensures Inv() && old(sent) <= sent <= accepted && old(received) <= received
    {
      hide IsRing;
      var times: nat := *;
      SentGrows();
      while times > 0
        invariant Inv() && old(sent) <= sent <= accepted && old(received) <= received
      {
        var passes: seq<Pass> := *;
        Irq(passes);
        SentGrows();
        times := times - 1;
      }
    }

    // ----------------------------------------------------------- write

    /** memcpy of n characters into the free slots from txIn on, interruptible at every byte. */
    method CopyOut(src: array<Byte>, from: nat, n: nat, ghost o: nat)
      requires Inv() && src != txBuf && src != rxBuf && from + n <= src.Length
      requires o <= |sent| && |accepted| + n - o < BUF && txIn + n <= BUF
      modifies this`rxIn, this`re, this`received, rxBuf, this`txOut, this`we, this`sent, txBuf
      ensures Inv() && old(sent) <= sent && old(received) <= received
      ensures txIn + n <= BUF == txBuf.Length && txBuf[txIn..txIn + n] == src[from..from + n]
    {
      hide TxAwake, RxAwake, Rx;
      var k := 0;
      while k < n
        invariant 0 <= k <= n && Inv() && old(sent) <= sent && old(received) <= received && o <= |sent|
        invariant txBuf[txIn..txIn + k] == src[from..from + k]
      {
        hide Inv, Tx;
        ghost var slots := txBuf[..];
        Interrupts();
        CopyByte(src[from + k], k);
        assert txBuf[txIn..txIn + k + 1] == src[from..from + k + 1] by {
          assert txBuf[txIn..txIn + k] == slots[txIn..txIn + k];
        }
        k := k + 1;
      }
    }

    method CopyByte(ch: Byte, k: nat)
      requires Inv() && |accepted| + k - |sent| < BUF && txIn + k < BUF
      modifies txBuf
      ensures Inv() && txIn + k < txBuf.Length && txBuf[..] == old(txBuf[..])[txIn + k := ch]
    {
      hide IsRing;
      RingShape();
      WriteAhead(txBuf[..], txIn, txOut, accepted, sent, k, ch);
      Ahead(|accepted|, k);
      txBuf[txIn + k] := ch;
    }

    lemma RingShape()
      requires Inv()
      ensures txBuf.Length == BUF == rxBuf.Length && txIn == |accepted| % BUF && txOut == |sent| % BUF
      ensures rxIn == |received| % BUF && rxOut == |delivered| % BUF
      ensures |sent| <= |accepted| < |sent| + BUF && |delivered| <= |received| < |delivered| + BUF
    {
    }

    /** One round of write's copying loop: snapshots, copy, publish. 0: the ring was full. */
    method FillOnce(src: array<Byte>, from: nat, count: nat) returns (n: nat, out: nat, ghost o: nat)
      requires Inv() && src != txBuf && src != rxBuf && from + count <= src.Length && 0 < count
      modifies this`rxIn, this`re, this`received, rxBuf, this`txOut, this`we, this`sent, txBuf, this`txIn, this`accepted, this`txKick
      ensures Inv() && old(sent) <= sent && old(received) <= received
      ensures n <= count && accepted == old(accepted) + src[from..from + n] && txKick == (old(txKick) || n > 0)
      ensures old(|sent|) <= o <= |sent| && out == o % BUF
      ensures n == 0 ==> |accepted| - o == BUF - 1
    {
      assert rxBuf != txBuf;
      hide IsRing, TxAwake, RxAwake, Inv, Tx, Rx;
      Interrupts();
      var in_ := txIn;
      Interrupts();
      out, o := txOut, |sent|;
      RingShape();
      SpaceIsFree(|accepted|, o);
      n := Space(in_, out);
      if n == 0 { return; }
      if n > count { n := count; }
      CopyOut(src, from, n, o);
      Interrupts();
      PublishTx(in_, n, src[from..from + n]);
    }

    /** The copying loop of write: until nothing is left or a snapshot shows a full ring. */
    method Fill(src: array<Byte>, from: nat, count: nat) returns (n: nat, out: nat, ghost o: nat)
      requires Inv() && src != txBuf && src != rxBuf && from + count <= src.Length
      modifies this`rxIn, this`re, this`received, rxBuf, this`txOut, this`we, this`sent, txBuf, this`txIn, this`accepted, this`txKick
      ensures Inv() && old(sent) <= sent && old(received) <= received
      ensures n <= count && accepted == old(accepted) + src[from..from + n] && txKick == (old(txKick) || n > 0)
      ensures n < count ==> old(|sent|) <= o <= |sent| && out == o % BUF && |accepted| - o == BUF - 1
    {
      hide IsRing, TxAwake, RxAwake, Inv, Tx, Rx;
      n, out, o := 0, 0, |sent|;
      while n < count
        invariant 0 <= n <= count && Inv() && old(sent) <= sent && old(received) <= received
        invariant accepted == old(accepted) + src[from..from + n] && txKick == (old(txKick) || n > 0)
        decreases count - n
      {
        var k;
        k, out, o := FillOnce(src, from + n, count - n);
        assert src[from..from + n] + src[from + n..from + n + k] == src[from..from + n + k];
        if k == 0 { break; }
        n := n + k;
      }
    }

    /** "sp->tx_in = (in + n) % BUF_LEN". */
    method PublishTx(in_: nat, n: nat, ghost data: seq<Byte>)
      requires Inv() && in_ == txIn && n == |data| && |accepted| + n - |sent| < BUF && 0 < n && txIn + n <= BUF == txBuf.Length
      requires txBuf[txIn..txIn + n] == data
      modifies this`txIn, this`accepted, this`txKick
      ensures Inv() && txKick && accepted == old(accepted) + data
    {
      assert Rx() && RxAwake();
      hide IsRing, Rx;
      Publish(txBuf[..], txIn, txOut, accepted, sent, data);
      txIn := (in_ + n) % BUF;
      accepted, txKick := accepted + data, true;
    }

    /** The critical section that turns the transmit interrupt on. */
    method EnableTx()
      requires Inv()
      modifies this`rxIn, this`re, this`received, rxBuf, this`txOut, this`we, this`sent, this`txKick
      ensures Inv() && we && !txKick && old(sent) <= sent && old(received) <= received
    {
      hide IsRing, Tx, Rx;
      Interrupts();
      we, txKick := true, false;
    }

    /**
     altera_avalon_jtag_uart_write. Waiting for the ring to drain ends when txOut moves, or when the
     host is found inactive; until then any number of interrupts come.
     */
    method Write(src: array<Byte>, count: int, nonblock: bool) returns (r: Outcome, ghost n: nat)
      requires Inv() && !txKick && src != txBuf && src != rxBuf && count <= src.Length
      modifies this`rxIn, this`re, this`received, rxBuf, this`txOut, this`we, this`sent, txBuf, this`txIn, this`accepted, this`txKick
      ensures Inv() && !txKick && old(sent) <= sent && old(received) <= received
      // exactly the first n characters are taken over, and n is reported
      ensures n <= AtLeast0(count) && accepted == old(accepted) + src[..n]
      ensures r == if n > 0 then Count(n) else if nonblock then WouldBlock else IoError
      // a short blocking call leaves the ring full: the host has been found inactive
      ensures !nonblock && n < AtLeast0(count) ==> |accepted| - |sent| == BUF - 1
      // no fewer than there was room for
      ensures n >= Min(AtLeast0(count), BUF - 1 - (|old(accepted)| - |old(sent)|))
    {
      hide IsRing, TxAwake, RxAwake, Inv, Tx, Rx;
      var ptr, left := 0, count;
      ghost var fresh_ := true;
      while true
        invariant 0 <= ptr && left == count - ptr && (left < 0 ==> ptr == 0) && Inv()
        invariant accepted == old(accepted) + src[..ptr] && old(sent) <= sent && old(received) <= received
        invariant fresh_ || (left > 0 && |accepted| - |sent| < BUF - 1)
        decreases left, fresh_
      {
        var k, out;
        ghost var o;
        k, out, o := Fill(src, ptr, AtLeast0(left));
        assert src[..ptr] + src[ptr..ptr + k] == src[..ptr + k];
        ptr, left := ptr + k, left - k;
        EnableTx();
        if left <= 0 || nonblock { break; }
        Interrupts();
        if out == txOut {
          StillFull(out, o);
          break;
        }
        RoomAgain(out, o);
        fresh_ := false;
      }
      n := ptr;
      r := if ptr != 0 then Count(ptr) else if nonblock then WouldBlock else IoError;
    }

    /** Full when out was read, and the index has moved since: there is room. */
    lemma RoomAgain(out: nat, o: nat)
      requires Inv() && o <= |sent| && out == o % BUF && out != txOut && |accepted| - o == BUF - 1
      ensures |accepted| - |sent| < BUF - 1
    {
    }

    /** Full when out was read, and the index has not moved since: full. */
    lemma StillFull(out: nat, o: nat)
      requires Inv() && o <= |sent| && out == o % BUF && out == txOut && |accepted| - o == BUF - 1
      ensures |accepted| - |sent| == BUF - 1
    {
      RingShape();
      hide IsRing;
      Distance(|sent|, o);
    }

    // ----------------------------------------------------------- read

    lemma OldestBytes(n: nat)
      requires Inv() && |delivered| + n <= |received| && rxOut + n <= BUF
      ensures rxBuf.Length == BUF && rxBuf[rxOut..rxOut + n] == received[|delivered|..|delivered| + n]
    {
      Take(rxBuf[..], rxIn, rxOut, received, delivered, n);
      assert rxBuf[..][rxOut..rxOut + n] == rxBuf[rxOut..rxOut + n];
    }

    /** memcpy of n characters out of the ring from rxOut on, interruptible at every byte. */
    method CopyIn(buffer: array<Byte>, from: nat, n: nat)
      requires Inv() && buffer != txBuf && buffer != rxBuf && from + n <= buffer.Length
      requires |delivered| + n <= |received| && rxOut + n <= BUF
      modifies this`rxIn, this`re, this`received, rxBuf, this`txOut, this`we, this`sent, buffer
      ensures Inv() && old(sent) <= sent && old(received) <= received && |delivered| + n <= |received|
      ensures buffer[from..from + n] == received[|delivered|..|delivered| + n]
      ensures forall i :: 0 <= i < buffer.Length && !(from <= i < from + n) ==> buffer[i] == old(buffer[i])
    {
      assert rxBuf != txBuf;
      hide IsRing, TxAwake, RxAwake, Inv, Tx, Rx;
      ghost var d, r0 := |delivered|, received;
      var k := 0;
      while k < n
        invariant 0 <= k <= n && Inv() && old(sent) <= sent && r0 <= received
        invariant buffer[from..from + k] == r0[d..d + k]
        invariant forall i :: 0 <= i < buffer.Length && !(from <= i < from + k) ==> buffer[i] == old(buffer[i])
      {
        Interrupts();
        OldestBytes(n);
        assert rxBuf[rxOut + k] == rxBuf[rxOut..rxOut + n][k] == r0[d + k];
        ghost var before := buffer[from..from + k];
        CopyInByte(buffer, from + k, rxBuf[rxOut + k]);
        assert buffer[from..from + k + 1] == before + [r0[d + k]];
        k := k + 1;
      }
    }

    method CopyInByte(buffer: array<Byte>, i: nat, ch: Byte)
      requires Inv() && buffer != txBuf && buffer != rxBuf && i < buffer.Length
      modifies buffer
      ensures Inv() && buffer[..] == old(buffer[..])[i := ch]
    {
      buffer[i] := ch;
    }

    /** "sp->rx_out = (out + n) % BUF_LEN". */
    method ReleaseRx(out: nat, n: nat)
      requires Inv() && out == rxOut && 0 < n && |delivered| + n <= |received|
      modifies this`rxOut, this`delivered, this`rxKick
      ensures Inv() && rxKick && |delivered| == |old(delivered)| + n && delivered == received[..|old(delivered)| + n]
    {
      assert Tx() && TxAwake();
      hide IsRing, Tx;
      Take(rxBuf[..], rxIn, rxOut, received, delivered, n);
      rxOut := (out + n) % BUF;
      delivered, rxKick := received[..|delivered| + n], true;
    }

    /** One round of read's copying loop: snapshots, copy, release. 0: the ring was empty. */
    method TakeOnce(buffer: array<Byte>, from: nat, space: nat) returns (n: nat, in_: nat, ghost i: nat)
      requires Inv() && buffer != txBuf && buffer != rxBuf && from + space <= buffer.Length && 0 < space
      modifies this`rxIn, this`re, this`received, rxBuf, this`txOut, this`we, this`sent, buffer, this`rxOut, this`delivered, this`rxKick
      ensures Inv() && old(sent) <= sent && old(received) <= received
      ensures n <= space && delivered == old(delivered) + buffer[from..from + n] && rxKick == (old(rxKick) || n > 0)
      ensures forall j :: 0 <= j < buffer.Length && !(from <= j < from + n) ==> buffer[j] == old(buffer[j])
      ensures old(|received|) <= i <= |received| && in_ == i % BUF
      ensures n == 0 ==> |delivered| == i
    {
      hide IsRing, TxAwake, RxAwake, Inv, Tx, Rx;
      Interrupts();
      in_, i := rxIn, |received|;
      RingShape();
      AvailableIsThere(i, |delivered|);
      Interrupts();
      var out := rxOut;
      n := Available(in_, out);
      if n == 0 { return; }
      if n > space { n := space; }
      CopyIn(buffer, from, n);
      ghost var d, part, r0 := delivered, buffer[from..from + n], received;
      SentGrows();
      Interrupts();
      ReleaseRx(out, n);
      Joined(d, part, r0, received);
    }

    /** The copying loop of read: until the space is used up or a snapshot shows an empty ring. */
    method Empty(buffer: array<Byte>, from: nat, space: nat) returns (n: nat, in_: nat, ghost i: nat)
      requires Inv() && buffer != txBuf && buffer != rxBuf && from + space <= buffer.Length && 0 < space
      modifies this`rxIn, this`re, this`received, rxBuf, this`txOut, this`we, this`sent, buffer, this`rxOut, this`delivered, this`rxKick
      ensures Inv() && old(sent) <= sent && old(received) <= received
      ensures n <= space && delivered == old(delivered) + buffer[from..from + n] && rxKick == (old(rxKick) || n > 0)
      ensures forall j :: 0 <= j < buffer.Length && !(from <= j < from + n) ==> buffer[j] == old(buffer[j])
      ensures n < space ==> old(|received|) <= i <= |received| && in_ == i % BUF && |delivered| == i
    {
      hide IsRing, TxAwake, RxAwake, Inv, Tx, Rx;
      n, in_, i := 0, 0, 0;
      while n < space
        invariant 0 <= n <= space && Inv() && old(sent) <= sent && old(received) <= received
        invariant delivered == old(delivered) + buffer[from..from + n] && rxKick == (old(rxKick) || n > 0)
        invariant forall j :: 0 <= j < buffer.Length && !(from <= j < from + n) ==> buffer[j] == old(buffer[j])
        decreases space - n
      {
        var k;
        ghost var part := buffer[from..from + n];
        k, in_, i := TakeOnce(buffer, from + n, space - n);
        assert buffer[from..from + n + k] == part + buffer[from + n..from + n + k];
        if k == 0 { break; }
        n := n + k;
      }
    }

    /** The critical section that turns the receive interrupt on. */
    method EnableRx()
      requires Inv()
      modifies this`rxIn, this`re, this`received, rxBuf, this`txOut, this`we, this`sent, this`rxKick
      ensures Inv() && re && !rxKick && old(sent) <= sent && old(received) <= received
    {
      hide IsRing, Tx, Rx;
      Interrupts();
      re, rxKick := true, false;
    }

    /** Empty when in was read, and the index has not moved since: empty. */
    lemma StillEmpty(in_: nat, i: nat)
      requires Inv() && |delivered| == i <= |received| && in_ == i % BUF && in_ == rxIn
      ensures received == delivered
    {
      RingShape();
      Distance(|received|, i);
    }

    /** altera_avalon_jtag_uart_read, with the same reading of its wait as in Write. */
    method Read(buffer: array<Byte>, space: int, nonblock: bool) returns (r: Outcome, ghost n: nat)
      requires Inv() && !rxKick && buffer != txBuf && buffer != rxBuf && space <= buffer.Length
      modifies this`rxIn, this`re, this`received, rxBuf, this`txOut, this`we, this`sent, buffer, this`rxOut, this`delivered, this`rxKick
      ensures Inv() && !rxKick && old(sent) <= sent && old(received) <= received
      // the next n characters are handed over, in order, and n is reported
      ensures n <= AtLeast0(space) && delivered == old(delivered) + buffer[..n]
      ensures forall j :: n <= j < buffer.Length ==> buffer[j] == old(buffer[j])
      ensures r == if n > 0 then Count(n) else if nonblock then WouldBlock else IoError
      // a blocking call that hands over nothing leaves the ring empty
      ensures !nonblock && n == 0 < space ==> received == delivered
      // no fewer than there were
      ensures n >= Min(AtLeast0(space), |old(received)| - |old(delivered)|)
      ensures n > 0 ==> re
    {
      hide IsRing, TxAwake, RxAwake, Inv, Tx, Rx;
      var ptr, left := 0, space;
      ghost var fresh_ := true;
      while left > 0
        invariant ptr == 0 && left == space && Inv() && !rxKick
        invariant delivered == old(delivered) && old(sent) <= sent && old(received) <= received
        invariant buffer[..] == old(buffer[..])
        invariant fresh_ || |received| > |delivered|
        decreases fresh_
      {
        var k, in_;
        ghost var i;
        k, in_, i := Empty(buffer, 0, left);
        ptr, left := ptr + k, left - k;
        if ptr != 0 || nonblock { break; }
        Interrupts();
        if in_ == rxIn {
          StillEmpty(in_, i);
          break;
        }
        RingShape();
        fresh_ := false;
      }
      n := ptr;
      if ptr != 0 { EnableRx(); }
      r := if ptr != 0 then Count(ptr) else if nonblock then WouldBlock else IoError;
    }

    // ----------------------------------------------------------- close

    /**
     altera_avalon_jtag_uart_close: without a timeout everything written has gone to the device. With
     inactive, the host has already been silent for too long when the loop looks the first time.
     */
    method Close(nonblock: bool, inactive: bool) returns (closed: bool, timedOut: bool)
      requires Inv()
      modifies this`rxIn, this`re, this`received, rxBuf, this`txOut, this`we, this`sent
      ensures Inv() && old(sent) <= sent
      ensures closed && !timedOut ==> sent == accepted
      // would block: only with data left and an active host
      ensures !closed ==> nonblock && !inactive && |sent| < |accepted|
      // data given up: only for an inactive host, and never in non-blocking mode before that
      ensures timedOut ==> closed && |sent| < |accepted| && (nonblock ==> inactive)
    {
      hide IsRing;
      Interrupts();
      RingShape();
      TxState();
      timedOut := txOut != txIn && inactive;
      if txOut != txIn && !inactive {
        if nonblock { return false, false; }
        Interrupts();
        RingShape();
        TxState();
        timedOut := txOut != txIn;  // the wait ended for the other reason
      }
      closed := true;
    }
  }

  function AtLeast0(n: int): nat { if n < 0 then 0 else n }
}
