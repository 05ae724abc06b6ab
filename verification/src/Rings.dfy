/**
 A circular buffer between one producer and one consumer, seen through its whole history: all the
 bytes ever pushed and all ever popped. Slot i % BUF holds byte i of the history.
 */
module Rings {
  import opened Bytes

  const BUF := 2048   // ALTERA_AVALON_JTAG_UART_BUF_LEN

  ghost predicate IsRing(buf: seq<Byte>, inp: nat, outp: nat, pushed: seq<Byte>, popped: seq<Byte>) {
    && |buf| == BUF && popped <= pushed && |pushed| - |popped| < BUF
    && inp == |pushed| % BUF && outp == |popped| % BUF
    && forall i :: |popped| <= i < |pushed| ==> buf[i % BUF] == pushed[i]
  }

  /** What the indices alone say is in the ring. */
  ghost function Contents(buf: seq<Byte>, inp: nat, outp: nat): seq<Byte>
    requires |buf| == BUF
  {
    seq((inp - outp) % BUF, k requires 0 <= k < BUF => buf[(outp + k) % BUF])
  }

  lemma Distance(p: nat, q: nat)
    requires q <= p < q + BUF
    ensures p - q == if p % BUF >= q % BUF then p % BUF - q % BUF else p % BUF - q % BUF + BUF
    ensures (p % BUF - q % BUF) % BUF == p - q
  {
    var a, b := p / BUF, q / BUF;
    assert p == BUF * a + p % BUF && q == BUF * b + q % BUF;
    assert a == b || a == b + 1;
  }

  lemma Ahead(p: nat, k: nat)
    requires k < BUF
    ensures (p + k) % BUF == if p % BUF + k < BUF then p % BUF + k else p % BUF + k - BUF
    ensures (p % BUF + k) % BUF == (p + k) % BUF
  {
    var a, r := p / BUF, p % BUF;
    assert p == BUF * a + r;
    if r + k < BUF {
      ModUnique(p + k, BUF, a, r + k);
    } else {
      ModUnique(p + k, BUF, a + 1, r + k - BUF);
    }
  }

  /** First in, first out: what was pushed is what was popped, then what is in the ring. */
  lemma Fifo(buf: seq<Byte>, inp: nat, outp: nat, pushed: seq<Byte>, popped: seq<Byte>)
    requires IsRing(buf, inp, outp, pushed, popped)
    ensures pushed == popped + Contents(buf, inp, outp)
    ensures |Contents(buf, inp, outp)| <= BUF - 1
  {
    Distance(|pushed|, |popped|);
    var c := Contents(buf, inp, outp);
    forall k | 0 <= k < |c| ensures c[k] == pushed[|popped| + k] {
      Ahead(|popped|, k);
      assert buf[(|popped| + k) % BUF] == pushed[|popped| + k];
    }
  }

  lemma EmptyIff(buf: seq<Byte>, inp: nat, outp: nat, pushed: seq<Byte>, popped: seq<Byte>)
    requires IsRing(buf, inp, outp, pushed, popped)
    ensures inp == outp <==> |pushed| == |popped|
    ensures inp == outp ==> pushed == popped
  {
    Distance(|pushed|, |popped|);
  }

  lemma FullIff(buf: seq<Byte>, inp: nat, outp: nat, pushed: seq<Byte>, popped: seq<Byte>)
    requires IsRing(buf, inp, outp, pushed, popped)
    ensures inp < BUF
    ensures (inp + 1) % BUF == outp <==> |pushed| - |popped| == BUF - 1
  {
    Distance(|pushed|, |popped|);
    Ahead(|pushed|, 1);
  }

  /** A byte in a free slot, k ahead of the last one, touches nothing in the ring. */
  lemma WriteAhead(buf: seq<Byte>, inp: nat, outp: nat, pushed: seq<Byte>, popped: seq<Byte>, k: nat, b: Byte)
    requires IsRing(buf, inp, outp, pushed, popped) && |pushed| + k - |popped| < BUF
    ensures (|pushed| + k) % BUF < BUF && IsRing(buf[(|pushed| + k) % BUF := b], inp, outp, pushed, popped)
  {
    forall i | |popped| <= i < |pushed| ensures i % BUF != (|pushed| + k) % BUF {
      Distance(|pushed| + k, i);
    }
  }

  /** Publishing the bytes written ahead. */
  lemma Publish(buf: seq<Byte>, inp: nat, outp: nat, pushed: seq<Byte>, popped: seq<Byte>, data: seq<Byte>)
    requires IsRing(buf, inp, outp, pushed, popped) && |pushed| + |data| - |popped| < BUF
    requires inp + |data| <= BUF && buf[inp..inp + |data|] == data
    ensures IsRing(buf, (inp + |data|) % BUF, outp, pushed + data, popped)
  {
    Ahead(|pushed|, |data|);
    var all := pushed + data;
    forall i | |popped| <= i < |all| ensures buf[i % BUF] == all[i] {
      if i >= |pushed| {
        var j := i - |pushed|;
        Ahead(|pushed|, j);
        assert i % BUF == inp + j;
        assert buf[inp + j] == buf[inp..inp + |data|][j];
      } else {
        assert buf[i % BUF] == pushed[i];
      }
    }
  }

  lemma PushOne(buf: seq<Byte>, inp: nat, outp: nat, pushed: seq<Byte>, popped: seq<Byte>, b: Byte)
    requires IsRing(buf, inp, outp, pushed, popped) && |pushed| - |popped| < BUF - 1
    ensures inp < BUF && IsRing(buf[inp := b], (inp + 1) % BUF, outp, pushed + [b], popped)
  {
    WriteAhead(buf, inp, outp, pushed, popped, 0, b);
    Publish(buf[inp := b], inp, outp, pushed, popped, [b]);
  }

  /** Taking the oldest n bytes. */
  lemma Take(buf: seq<Byte>, inp: nat, outp: nat, pushed: seq<Byte>, popped: seq<Byte>, n: nat)
    requires IsRing(buf, inp, outp, pushed, popped) && |popped| + n <= |pushed|
    ensures IsRing(buf, inp, (outp + n) % BUF, pushed, pushed[..|popped| + n])
    ensures outp + n <= BUF ==> buf[outp..outp + n] == pushed[|popped|..|popped| + n]
  {
    Ahead(|popped|, n);
    if outp + n <= BUF {
      var part := buf[outp..outp + n];
      forall k | 0 <= k < n ensures part[k] == pushed[|popped| + k] {
        Ahead(|popped|, k);
        assert buf[(|popped| + k) % BUF] == pushed[|popped| + k];
      }
    }
  }

  // ------------------------------------------------------------- how much at once, from a snapshot

  /** The space a writer computes from its own index and a snapshot of the consumer's. */
  function Space(inp: int, outp: int): int {
    if inp < outp then outp - 1 - inp else if outp > 0 then BUF - inp else BUF - 1 - inp
  }

  /** The bytes a reader computes from its own index and a snapshot of the producer's. */
  function Available(inp: int, outp: int): int {
    if inp >= outp then inp - outp else BUF - outp
  }

  /** The space stays free however far the consumer has gone since, and it is 0 only if the ring was full. */
  lemma SpaceIsFree(p: nat, q: nat)
    requires q <= p < q + BUF
    ensures var n := Space(p % BUF, q % BUF);
            0 <= n && p % BUF + n <= BUF && p + n - q < BUF && (n == 0 <==> p - q == BUF - 1)
  {
    Distance(p, q);
  }

  /** The bytes stay in place however far the producer has gone since, and there are none only if it was empty. */
  lemma AvailableIsThere(p: nat, q: nat)
    requires q <= p < q + BUF
    ensures var n := Available(p % BUF, q % BUF);
            0 <= n && q % BUF + n <= BUF && q + n <= p && (n == 0 <==> p == q)
  {
    Distance(p, q);
  }
}
