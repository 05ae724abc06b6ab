/**
 Saving and loading the voxel map (main.c, SaveMapToSD, LoadMapFromSD): a run-length coder
 and decoder, each with its own 512-byte chunk buffer, over files of the FAT volume.
 */
module MapSave {
  import opened Bytes
  import opened Volume
  import opened Window
  import opened Chains
  import opened Layout
  import opened FileState
  import opened FileRead
  import opened FileWrite
  import opened FileSync

  // ------------------------------------------------------------- the code

  function Repeat(b: Byte, n: nat): (r: seq<Byte>)
    ensures |r| == n
    ensures forall i :: 0 <= i < n ==> r[i] == b
  {
    if n == 0 then [] else [b] + Repeat(b, n - 1)
  }

  /** One run: a tag and the block from 3 on, else the block itself once or twice. */
  function Emit(block: Byte, run: nat): seq<Byte>
    requires run <= 127
  {
    if run >= 3 then [0x80 + run, block] else Repeat(block, run)
  }

  /** The stream for a pending run and the bytes still to come. */
  function EncodeFrom(block: Byte, run: nat, rest: seq<Byte>): seq<Byte>
    requires run <= 127
    decreases |rest|
  {
    if rest == [] then Emit(block, run)
    else if rest[0] == block && run < 127 then EncodeFrom(block, run + 1, rest[1..])
    else Emit(block, run) + EncodeFrom(rest[0], 1, rest[1..])
  }

  function Encode(m: seq<Byte>): seq<Byte>
    requires m != []
  {
    EncodeFrom(m[0], 1, m[1..])
  }

  /** How a decoding ends: with all n bytes, or short of input. */
  datatype Decoded = Complete(out: seq<Byte>) | Short(out: seq<Byte>)

  function Decode(s: seq<Byte>, out: seq<Byte>, n: nat): (d: Decoded)
    requires |out| <= n
    ensures out <= d.out && |d.out| <= n
    ensures d.Complete? <==> |d.out| == n
    decreases |s|
  {
    if |out| == n then Complete(out)
    else if s == [] then Short(out)
    else if s[0] < 0x80 then Decode(s[1..], out + [s[0]], n)
    else if |s| == 1 then Short(out)
    else
      var count := s[0] - 0x80;
      Decode(s[2..], out + Repeat(s[1], if count <= n - |out| then count else n - |out|), n)
  }

  // ------------------------------------------------------------- round trip

  /** Runs that the decoder can tell from tags: small ids, or runs long enough to be tagged. */
  predicate Tellable(block: Byte, run: nat) {
    block < 0x80 || run >= 3
  }

  predicate EncodableFrom(block: Byte, run: nat, rest: seq<Byte>)
    decreases |rest|
  {
    if rest == [] then Tellable(block, run)
    else if rest[0] == block && run < 127 then EncodableFrom(block, run + 1, rest[1..])
    else Tellable(block, run) && EncodableFrom(rest[0], 1, rest[1..])
  }

  lemma {:induction false} SmallIdsEncodable(block: Byte, run: nat, rest: seq<Byte>)
    requires block < 0x80 && forall i :: 0 <= i < |rest| ==> rest[i] < 0x80
    ensures EncodableFrom(block, run, rest)
    decreases |rest|
  {
    if rest != [] {
      SmallIdsEncodable(block, run + 1, rest[1..]);
      SmallIdsEncodable(rest[0], 1, rest[1..]);
    }
  }

  lemma DecodeEmit(block: Byte, run: nat, s: seq<Byte>, out: seq<Byte>, n: nat)
    requires 1 <= run <= 127 && Tellable(block, run) && |out| + run <= n
    ensures Decode(Emit(block, run) + s, out, n) == Decode(s, out + Repeat(block, run), n)
  {
    var e := Emit(block, run) + s;
    if run >= 3 {
      assert e[2..] == s;
    } else if run == 1 {
      assert e[1..] == s && Repeat(block, 1) == [block];
    } else {
      assert e[1..] == [block] + s && e[1..][1..] == s;
      assert out + [block] + [block] == out + Repeat(block, 2);
    }
  }

  lemma RepeatMore(block: Byte, run: nat, out: seq<Byte>, rest: seq<Byte>)
    requires rest != [] && rest[0] == block
    ensures out + Repeat(block, run) + rest == out + Repeat(block, run + 1) + rest[1..]
  {
    assert Repeat(block, run) + [block] == Repeat(block, run + 1);
    assert rest == [rest[0]] + rest[1..];
  }

  lemma {:induction false} DecodeEncodeFrom(block: Byte, run: nat, rest: seq<Byte>, tail: seq<Byte>, out: seq<Byte>, n: nat)
    requires 1 <= run <= 127 && EncodableFrom(block, run, rest) && |out| + run + |rest| == n
    ensures Decode(EncodeFrom(block, run, rest) + tail, out, n) == Complete(out + Repeat(block, run) + rest)
    decreases |rest|
  {
    if rest == [] {
      DecodeEmit(block, run, tail, out, n);
      assert out + Repeat(block, run) + rest == out + Repeat(block, run);
    } else if rest[0] == block && run < 127 {
      DecodeEncodeFrom(block, run + 1, rest[1..], tail, out, n);
      RepeatMore(block, run, out, rest);
    } else {
      var s := EncodeFrom(rest[0], 1, rest[1..]) + tail;
      assert EncodeFrom(block, run, rest) + tail == Emit(block, run) + s;
      DecodeEmit(block, run, s, out, n);
      var out' := out + Repeat(block, run);
      DecodeEncodeFrom(rest[0], 1, rest[1..], tail, out', n);
      assert out' + Repeat(rest[0], 1) + rest[1..] == out' + rest;
    }
  }

  /** Loading what was saved restores the map, whatever follows it in the file. */
  lemma RoundTrip(m: seq<Byte>, tail: seq<Byte>)
    requires m != [] && forall i :: 0 <= i < |m| ==> m[i] < 0x80
    ensures Decode(Encode(m) + tail, [], |m|) == Complete(m)
  {
    SmallIdsEncodable(m[0], 1, m[1..]);
    DecodeEncodeFrom(m[0], 1, m[1..], tail, [], |m|);
    assert [] + Repeat(m[0], 1) + m[1..] == m;
  }

  ghost predicate Restored(m: seq<Byte>)
    requires m != []
  {
    Decode(Encode(m), [], |m|) == Complete(m)
  }

  /** No id from 128 on survives on its own: its literal is read as a tag. */
  lemma LargeIdLost(b: Byte)
    requires b >= 0x80
    ensures !Restored([b])
  {
    assert Encode([b]) == [b] by {
      assert [b][1..] == [];
      assert Repeat(b, 1) == [b];
    }
  }

  /** Nor does it in front of a smaller one, which the tag swallows: too few copies of it or too many. */
  lemma LargeIdLostBefore(b: Byte, c: Byte)
    requires b >= 0x80 && c < 0x80
    ensures !Restored([b, c])
  {
    var m := [b, c];
    assert Encode(m) == m by {
      assert m[1..] == [c];
      assert EncodeFrom(b, 1, [c]) == Emit(b, 1) + EncodeFrom(c, 1, []) by { assert [c][1..] == []; }
      assert Repeat(b, 1) == [b] && Repeat(c, 1) == [c];
    }
    assert m[2..] == [];
    var d := Decode(m, [], 2);
    assert d == Decode([], [] + Repeat(c, Min(b - 0x80, 2)), 2);
    if d.Complete? { assert d.out[0] == c; }
  }

  /** But not every large id in a short run is lost: the tag may happen to say the right thing. */
  lemma LargeIdKept()
    ensures Restored([0x82, 0x82])
  {
    var m: seq<Byte> := [0x82, 0x82];
    assert m[1..] == [0x82] && m[1..][1..] == [] && m[2..] == [];
    assert EncodeFrom(0x82, 1, [0x82]) == EncodeFrom(0x82, 2, []);
    assert Repeat(0x82, 2) == m;
  }

  /** The maps over a set of ids all come back if and only if the set has no id from 128 on. */
  lemma RestoredIff(ids: set<Byte>)
    ensures (forall m: seq<Byte> :: m != [] && (forall i :: 0 <= i < |m| ==> m[i] in ids) ==> Restored(m)) <==>
            (forall b :: b in ids ==> b < 0x80)
  {
    if b :| b in ids && b >= 0x80 {
      LargeIdLost(b);
      assert forall i :: 0 <= i < |[b]| ==> [b][i] in ids;
    } else {
      forall m: seq<Byte> | m != [] && (forall i :: 0 <= i < |m| ==> m[i] in ids) ensures Restored(m) {
        RoundTrip(m, []);
        assert Encode(m) + [] == Encode(m);
      }
    }
  }

  // ------------------------------------------------------------- size

  lemma {:induction false} EncodedSizeFrom(block: Byte, run: nat, rest: seq<Byte>)
    requires 1 <= run <= 127
    ensures |EncodeFrom(block, run, rest)| <= run + |rest|
    ensures 127 * |EncodeFrom(block, run, rest)| >= 2 * (run + |rest|)
    decreases |rest|
  {
    if rest != [] {
      if rest[0] == block && run < 127 {
        EncodedSizeFrom(block, run + 1, rest[1..]);
      } else {
        EncodedSizeFrom(rest[0], 1, rest[1..]);
      }
    }
  }

  /** Never longer than the map, and at best 2 bytes for 127. */
  lemma EncodedSize(m: seq<Byte>)
    requires m != []
    ensures |Encode(m)| <= |m| && 127 * |Encode(m)| >= 2 * |m|
  {
    EncodedSizeFrom(m[0], 1, m[1..]);
  }

  // ------------------------------------------------------------- the coding is the shortest

  /** The bytes that a pending run and the rest come to. */
  function Size(b: Byte, run: nat, rest: seq<Byte>): nat
    requires run <= 127
  {
    |EncodeFrom(b, run, rest)|
  }

  function SizeOf(rest: seq<Byte>): nat {
    if rest == [] then 0 else |Encode(rest)|
  }

  lemma SizeOnward(b: Byte, run: nat, rest: seq<Byte>)
    requires 1 <= run <= 127
    ensures Size(b, run, rest) ==
            if rest != [] && rest[0] == b && run < 127 then Size(b, run + 1, rest[1..]) else Min(run, 2) + SizeOf(rest)
  {
  }

  /** A longer pending run is never cheaper. */
  lemma {:induction false} LongerRun(b: Byte, run: nat, rest: seq<Byte>)
    requires 1 <= run < 127
    ensures Size(b, run, rest) <= Size(b, run + 1, rest)
    decreases |rest|
  {
    hide Size, SizeOf;
    SizeOnward(b, run, rest);
    SizeOnward(b, run + 1, rest);
    if rest != [] && rest[0] == b {
      if run + 1 < 127 {
        LongerRun(b, run + 1, rest[1..]);
      } else {
        FullRun(b, rest);
        SizeOnward(b, 127, rest[1..]);
        SizeOnward(b, 1, rest[1..]);
        if rest[1..] != [] && rest[1] == b {
          FullRun(b, rest[1..]);
          LongerRun(b, 1, rest[1..][1..]);
        }
      }
    }
  }

  /** A full run ahead of more of the same block. */
  lemma FullRun(b: Byte, rest: seq<Byte>)
    requires rest != [] && rest[0] == b
    ensures Size(b, 127, rest) == 2 + Size(b, 1, rest[1..])
  {
  }

  /** Nor is it cheaper to cut a run in two. */
  lemma {:induction false} CutRun(b: Byte, r: nat, s: nat, rest: seq<Byte>)
    requires 1 <= r && 1 <= s && r + s <= 127
    ensures Size(b, r + s, rest) <= Min(r, 2) + Size(b, s, rest)
    decreases |rest|
  {
    hide Size, SizeOf;
    SizeOnward(b, r + s, rest);
    SizeOnward(b, s, rest);
    if rest != [] && rest[0] == b {
      var more := rest[1..];
      if r + s < 127 {
        CutRun(b, r, s + 1, more);
      } else {
        FullRun(b, rest);
        if r >= 2 {
          AnyLonger(b, 1, s + 1, more);
        } else {
          SizeOnward(b, 1, more);
          SizeOnward(b, 127, more);
          if more != [] && more[0] == b {
            FullRun(b, more);
            CutRun(b, 1, 1, more[1..]);
          }
        }
      }
    }
  }

  lemma {:induction false} AnyLonger(b: Byte, r: nat, s: nat, rest: seq<Byte>)
    requires 1 <= r <= s <= 127
    ensures Size(b, r, rest) <= Size(b, s, rest)
    decreases s
  {
    hide Size;
    if r < s {
      AnyLonger(b, r, s - 1, rest);
      LongerRun(b, s - 1, rest);
    }
  }

  /** A run put out on its own costs no less. */
  lemma SplitOff(b: Byte, run: nat, rest: seq<Byte>)
    requires 1 <= run <= 127
    ensures Size(b, run, rest) <= Min(run, 2) + SizeOf(rest)
  {
    hide Size, SizeOf;
    SizeOnward(b, run, rest);
    if rest != [] && rest[0] == b && run < 127 {
      StartOfRun(rest);
      CutRun(b, run, 1, rest[1..]);
    }
  }

  lemma StartOfRun(rest: seq<Byte>)
    requires rest != []
    ensures SizeOf(rest) == Size(rest[0], 1, rest[1..])
  {
  }

  /** The first k blocks are the same. */
  lemma {:induction false} RunOf(b: Byte, k: nat, rest: seq<Byte>)
    requires 1 <= k <= 127 && k <= |rest| && forall i :: 0 <= i < k ==> rest[i] == b
    ensures SizeOf(rest) == Size(b, k, rest[k..])
  {
    hide Size, SizeOf;
    if k == 1 {
      StartOfRun(rest);
    } else {
      RunOf(b, k - 1, rest);
      SizeOnward(b, k - 1, rest[k - 1..]);
      assert rest[k - 1..][1..] == rest[k..];
    }
  }

  lemma {:induction false} ShortestFrom(s: seq<Byte>, m: seq<Byte>, i: nat)
    requires i <= |m| && Decode(s, m[..i], |m|) == Complete(m)
    ensures SizeOf(m[i..]) <= |s|
    decreases |s|
  {
    hide Size, SizeOf;
    if i == |m| {
      assert m[i..] == [];
      assert SizeOf([]) == 0 by { NothingLeft(); }
    } else if s[0] < 0x80 {
      var out := m[..i] + [s[0]];
      assert out <= m;
      assert out == m[..i + 1];
      ShortestFrom(s[1..], m, i + 1);
      RunOf(m[i], 1, m[i..]);
      SplitOff(m[i], 1, m[i + 1..]);
      assert m[i..][1..] == m[i + 1..];
    } else {
      var k := Min(s[0] - 0x80, |m| - i);
      var out := m[..i] + Repeat(s[1], k);
      assert out <= m;
      assert out == m[..i + k];
      ShortestFrom(s[2..], m, i + k);
      if k > 0 {
        forall j | 0 <= j < k ensures m[i..][j] == s[1] {
          assert out[i + j] == s[1];
        }
        RunOf(s[1], k, m[i..]);
        SplitOff(s[1], k, m[i + k..]);
        assert m[i..][k..] == m[i + k..];
      }
    }
  }

  lemma NothingLeft()
    ensures SizeOf([]) == 0
  {
  }

  /** No stream that decodes to the map is shorter than its coding. */
  lemma EncodeShortest(m: seq<Byte>, s: seq<Byte>)
    requires m != [] && Decode(s, [], |m|) == Complete(m)
    ensures |Encode(m)| <= |s|
  {
    assert m[..0] == [] && m[0..] == m;
    ShortestFrom(s, m, 0);
  }

  // ------------------------------------------------------------- saving

  /** The file takes more bytes at its end. */
  ghost predicate AtEnd(file: File)
    reads file, file.buf, file.fs, file.fs.win
  {
    file.Inv() && file.err == Ok && file.Placed() && file.fptr == file.objsize
  }

  ghost predicate Apart(file: File, a: array<Byte>) {
    a != file.buf && a != file.fs.win
  }

  /** What has been produced so far: the file's bytes and those waiting in the chunk buffer. */
  ghost function Produced(file: File, buffer: array<Byte>, k: nat): seq<Byte>
    requires file.Placed() && k <= buffer.Length
    reads file, file.buf, file.fs, file.fs.win, buffer
  {
    file.Data() + buffer[..k]
  }

  /** The volume and the file's chain when the save began. */
  datatype Start = Start(dev: Dev, chain: seq<nat>)

  /** How the volume stands to the beginning of the save. */
  ghost predicate Since(file: File, s0: Start)
    requires file.fs.Valid()
    reads file`chain, file.fs, file.fs.win
  {
    GoodVolume(file.fs.g, s0.dev) && OthersKept(file.fs.g, s0.dev, s0.chain, DevOf(file.fs), file.chain)
  }

  /**
   Why a save falls short: a device error since the error count was base, a volume that is gone, a file not
   open for writing, no cluster to be had, or a damaged table. The one reason not in here is the 4 GiB limit.
   */
  ghost predicate Stuck(file: File, base: nat)
    requires file.fs.Valid()
    reads file.fs, file.fs.win
  {
    file.fs.faults > base || !file.fs.alive || !file.canWrite || CannotGrow(file.fs.Fat(), file.fs.freeClst)
  }

  /** While all went well, out is what has been produced; otherwise there is a reason. */
  ghost predicate Saving(file: File, buffer: array<Byte>, k: nat, success: bool, out: seq<Byte>, s0: Start)
    reads file, file.buf, file.fs, file.fs.win, buffer
  {
    && file.Inv() && buffer.Length == 512 && k < 512 && Since(file, s0)
    && (success ==> AtEnd(file) && file.modified && (file.fs.refuses ==> file.dirty) && Produced(file, buffer, k) == out)
    && (success || Stuck(file, s0.dev.log.faults) || |out| > 0xFFFF_FFFF)
  }

  /** f_write of the first n bytes of a buffer at the end of the file; all of them, or why not. */
  method Append(file: File, src: array<Byte>, n: Dword, ghost ready: bool, ghost s0: Start) returns (res: FResult, bw: nat)
    requires file.Inv() && Apart(file, src) && n <= src.Length && 0 < n && (ready ==> AtEnd(file)) && Since(file, s0)
    modifies file`clust, file`chain, file`sclust, file`dirty, file`sect, file`fptr, file`objsize, file`err, file`modified, file.buf,
             file.fs`alive, file.fs`disk, file.fs`wflag, file.fs`faults, file.fs`lostWrites, file.fs`winsect, file.fs.win,
             file.fs`freeClst, file.fs`torn, file.fs`fsiFlag, file.fs`lastClst
    ensures file.Inv() && bw <= n && Since(file, s0)
    ensures ready && bw == n ==> AtEnd(file) && file.Data() == old(file.Data()) + src[..n]
    ensures bw == n ==> res == Ok && file.modified && (file.fs.refuses ==> file.dirty)
    ensures ready && bw < n ==> Stuck(file, s0.dev.log.faults) || |old(file.Data())| + n > 0xFFFF_FFFF
    ensures old(Stuck(file, s0.dev.log.faults)) ==> Stuck(file, s0.dev.log.faults)
  {
    hide FatFs.FsInfoTold, FatFs.Valid, FatFs.Fat, FatFs.Logical, Laid, Clean, Cursor, BytesOf, OthersKept, GoodVolume, CannotGrow,
         NoCluster, DamagedFat;
    ghost var data := if ready then file.Data() else [];
    ghost var g, d, f, n0, alive := file.fs.g, DevOf(file.fs), file.View(), file.fs.freeClst, file.err == Ok;
    if alive { FileFacts(file); }
    NothingChanged(g, d, f.chain);
    LogSince(file, s0);
    res, bw := Write(file, src, n);
    OthersOnward(g, s0.dev, s0.chain, d, f.chain, DevOf(file.fs), file.chain);
    if ready && bw == n {
      SpliceAtEnd(data, src[..n]);
    }
    if res == Ok && CannotGrow(d.fat, n0) { StillCannotGrow(g, d, f, n0, DevOf(file.fs), file.View(), file.fs.freeClst); }
    if NoCluster(file.fs) || DamagedFat(file.fs) { WhyNotGrow(file.fs); }
    if !alive { CannotGrowSame(d.fat, n0, file.fs.freeClst); }
  }

  lemma CannotGrowSame(fat: seq<nat>, n: nat, n': nat)
    requires n == 0 ==> n' == 0
    ensures CannotGrow(fat, n) ==> CannotGrow(fat, n')
  {
  }

  lemma LogSince(file: File, s0: Start)
    requires file.fs.Valid() && Since(file, s0)
    ensures s0.dev.log.Onward(file.fs.Log())
  {
    hide FatFs.FsInfoTold, FatFs.Valid, FatFs.Fat, FatFs.Logical, GoodVolume;
  }

  lemma SpliceAtEnd(b: seq<Byte>, part: seq<Byte>)
    ensures Splice(b, |b|, part) == b + part
  {
  }

  /** PUSH_BYTE: into the chunk buffer, which is written out when full. */
  method PushByte(file: File, buffer: array<Byte>, k: nat, ok: bool, b: Byte, ghost out: seq<Byte>, ghost s0: Start)
    returns (k': nat, ok': bool)
    requires Saving(file, buffer, k, ok, out, s0) && Apart(file, buffer)
    modifies file`clust, file`chain, file`sclust, file`dirty, file`sect, file`fptr, file`objsize, file`err, file`modified, file.buf,
             buffer, file.fs`alive, file.fs`disk, file.fs`wflag, file.fs`faults, file.fs`lostWrites, file.fs`winsect, file.fs.win,
             file.fs`freeClst, file.fs`torn, file.fs`fsiFlag, file.fs`lastClst
    ensures Saving(file, buffer, k', ok', out + [b], s0) && (ok' ==> ok)
  {
    hide FatFs.FsInfoTold, FatFs.Valid, FatFs.Fat, FatFs.Logical, Laid, Clean, Cursor, BytesOf, OthersKept, GoodVolume, CannotGrow;
    ghost var was := buffer[..k];
    buffer[k] := b;
    k', ok' := k + 1, ok;
    assert buffer[..k + 1] == was + [b];
    if k' == 512 {
      var res, bw := Append(file, buffer, 512, ok, s0);
      if bw != 512 { ok' := false; }
      k' := 0;
      assert buffer[..512] == was + [b];
      assert buffer[..0] == [];
    }
  }

  /** Settle a finished run. */
  method PushRun(file: File, buffer: array<Byte>, k: nat, ok: bool, block: Byte, run: nat, ghost out: seq<Byte>, ghost s0: Start)
    returns (k': nat, ok': bool)
    requires Saving(file, buffer, k, ok, out, s0) && Apart(file, buffer) && 1 <= run <= 127
    modifies file`clust, file`chain, file`sclust, file`dirty, file`sect, file`fptr, file`objsize, file`err, file`modified, file.buf,
             buffer, file.fs`alive, file.fs`disk, file.fs`wflag, file.fs`faults, file.fs`lostWrites, file.fs`winsect, file.fs.win,
             file.fs`freeClst, file.fs`torn, file.fs`fsiFlag, file.fs`lastClst
    ensures Saving(file, buffer, k', ok', out + Emit(block, run), s0) && (ok' ==> ok)
  {
    hide Saving;
    if run >= 3 {
      k', ok' := PushByte(file, buffer, k, ok, 0x80 + run, out, s0);
      k', ok' := PushByte(file, buffer, k', ok', block, out + [0x80 + run], s0);
      assert out + [0x80 + run] + [block] == out + Emit(block, run);
    } else {
      var c := 0;
      k', ok' := k, ok;
      assert out + Repeat(block, 0) == out;
      while c < run
        invariant 0 <= c <= run && Saving(file, buffer, k', ok', out + Repeat(block, c), s0) && (ok' ==> ok)
      {
        k', ok' := PushByte(file, buffer, k', ok', block, out + Repeat(block, c), s0);
        RepeatMore(block, c, out, [block]);
        assert out + Repeat(block, c) + [block] == out + Repeat(block, c + 1);
        c := c + 1;
      }
    }
  }

  /** The scan of the map. */
  method PushMap(file: File, buffer: array<Byte>, sram: array<Byte>, ghost header: seq<Byte>, ghost s0: Start) returns (k: nat, ok: bool)
    requires Saving(file, buffer, 0, true, header, s0) && Apart(file, buffer) && Apart(file, sram) && sram != buffer && 0 < sram.Length
    modifies file`clust, file`chain, file`sclust, file`dirty, file`sect, file`fptr, file`objsize, file`err, file`modified, file.buf,
             buffer, file.fs`alive, file.fs`disk, file.fs`wflag, file.fs`faults, file.fs`lostWrites, file.fs`winsect, file.fs.win,
             file.fs`freeClst, file.fs`torn, file.fs`fsiFlag, file.fs`lastClst
    ensures Saving(file, buffer, k, ok, header + Encode(sram[..]), s0)
    ensures sram[..] == old(sram[..])
  {
    hide Saving;
    var block: Byte, run := sram[0], 1;
    var i := 1;
    ghost var out, m := header, sram[..];
    k, ok := 0, true;
    while i < sram.Length
      invariant 1 <= i <= |m| == sram.Length && sram[..] == m && 1 <= run <= 127
      invariant Saving(file, buffer, k, ok, out, s0)
      invariant out + EncodeFrom(block, run, m[i..]) == header + Encode(m)
    {
      var next := sram[i];
      assert m[i..] != [] && m[i..][0] == next && m[i..][1..] == m[i + 1..];
      if next == block && run < 127 {
        run := run + 1;
      } else {
        k, ok := PushRun(file, buffer, k, ok, block, run, out, s0);
        assert out + Emit(block, run) + EncodeFrom(next, 1, m[i + 1..]) == out + (Emit(block, run) + EncodeFrom(next, 1, m[i + 1..]));
        out := out + Emit(block, run);
        block, run := next, 1;
      }
      i := i + 1;
    }
    assert m[i..] == [];
    k, ok := PushRun(file, buffer, k, ok, block, run, out, s0);
  }

  /** The buffer's tail, unless a write has failed before. */
  method PushTail(file: File, buffer: array<Byte>, k: nat, ok: bool, ghost out: seq<Byte>, ghost s0: Start) returns (success: bool)
    requires Saving(file, buffer, k, ok, out, s0) && Apart(file, buffer)
    modifies file`clust, file`chain, file`sclust, file`dirty, file`sect, file`fptr, file`objsize, file`err, file`modified, file.buf,
             file.fs`alive, file.fs`disk, file.fs`wflag, file.fs`faults, file.fs`lostWrites, file.fs`winsect, file.fs.win,
             file.fs`freeClst, file.fs`torn, file.fs`fsiFlag, file.fs`lastClst
    ensures file.Inv() && Since(file, s0) && (success ==> ok)
    ensures success ==> AtEnd(file) && file.modified && (file.fs.refuses ==> file.dirty) && file.Data() == out
    ensures success || Stuck(file, s0.dev.log.faults) || |out| > 0xFFFF_FFFF
  {
    hide FatFs.FsInfoTold, FatFs.Valid, FatFs.Fat, FatFs.Logical, Laid, Clean, Cursor, BytesOf, OthersKept, GoodVolume, CannotGrow;
    success := ok;
    if k > 0 && ok {
      var res, bw := Append(file, buffer, k, true, s0);
      if bw != k { success := false; }
    } else if ok {
      assert buffer[..0] == [];
    }
  }

  /** Everything up to the close. */
  method WriteSave(file: File, player: array<Byte>, sram: array<Byte>, ghost s0: Start) returns (success: bool)
    requires AtEnd(file) && file.objsize == 0 && Since(file, s0)
    requires Apart(file, player) && Apart(file, sram) && player != sram && 0 < sram.Length && 0 < player.Length < 0x1_0000_0000
    modifies file`clust, file`chain, file`sclust, file`dirty, file`sect, file`fptr, file`objsize, file`err, file`modified, file.buf,
             file.fs`alive, file.fs`disk, file.fs`wflag, file.fs`faults, file.fs`lostWrites, file.fs`winsect, file.fs.win,
             file.fs`freeClst, file.fs`torn, file.fs`fsiFlag, file.fs`lastClst
    ensures file.Inv() && Since(file, s0)
    ensures success ==> AtEnd(file) && file.modified && (file.fs.refuses ==> file.dirty) && file.Data() == player[..] + Encode(sram[..])
    ensures success || Stuck(file, s0.dev.log.faults) || player.Length + |Encode(sram[..])| > 0xFFFF_FFFF
  {
    hide FatFs.FsInfoTold, FatFs.Valid, FatFs.Fat, FatFs.Logical, Laid, Clean, Cursor, BytesOf, OthersKept, GoodVolume, CannotGrow;
    assert file.Data() == [];
    var res, bw := Append(file, player, player.Length, true, s0);
    if res != Ok || bw != player.Length {
      return false;
    }
    var buffer := new Byte[512];
    assert player[..player.Length] == player[..];
    assert Produced(file, buffer, 0) == player[..] by { assert buffer[..0] == []; }
    var k, ok := PushMap(file, buffer, sram, player[..], s0);
    success := PushTail(file, buffer, k, ok, player[..] + Encode(sram[..]), s0);
  }

  /** A file just created: no cluster, and an entry that gives the size 0, on the device or still in the window. */
  ghost predicate NewFile(file: File)
    reads file, file.buf, file.fs, file.fs.win
  {
    file.Shaped() && file.sclust == 0 && Word32(file.fs.Logical()[file.dirSect], file.dirOfs + 28) == 0
  }

  /**
   SaveMapToSD on a freshly created file. Its caller never learns the result of f_close, which is
   handed out here as closed: a reported success means durable only if that is Ok as well. The card may turn
   read-only (locks) between the last write and the close.
   */
  method SaveMap(file: File, player: array<Byte>, sram: array<Byte>, now: Dword, locks: bool) returns (success: bool, closed: FResult)
    requires AtEnd(file) && file.objsize == 0
    requires Apart(file, player) && Apart(file, sram) && player != sram && 0 < sram.Length && 0 < player.Length < 0x1_0000_0000
    modifies file`clust, file`chain, file`sclust, file`dirty, file`sect, file`fptr, file`objsize, file`err, file`modified, file.buf,
             file.fs`alive, file.fs`disk, file.fs`wflag, file.fs`faults, file.fs`lostWrites, file.fs`winsect, file.fs.win,
             file.fs`freeClst, file.fs`torn, file.fs`fsiFlag, file.fs`lastClst, file.fs`refuses
    ensures file.Inv() && old(file.fs.Log()).Onward(file.fs.Log())
    ensures success ==> file.Placed() && file.Data() == player[..] + Encode(sram[..])
    // a failure has a reason
    ensures success || Stuck(file, old(file.fs.faults)) || player.Length + |Encode(sram[..])| > 0xFFFF_FFFF
    ensures success && closed == Ok ==> Durable(file, now)
    // the card turns read-only behind the last write: success all the same, unless there was a reason before the close
    ensures file.fs.refuses ==> success || Stuck(file, old(file.fs.faults) + (if closed == DiskErr then 1 else 0)) ||
                                player.Length + |Encode(sram[..])| > 0xFFFF_FFFF
    // and an empty file on the card
    ensures file.fs.refuses == (old(file.fs.refuses) || locks)
    ensures success && file.fs.refuses ==> closed != Ok
    ensures success && old(file.fs.refuses) ==> !OnDevice(file)
    ensures success && file.fs.refuses && old(NewFile(file)) ==>
              file.fs.disk[file.dirSect] == old(file.fs.Logical()[file.dirSect]) && !OnDevice(file)
  {
    hide FatFs.FsInfoTold, FatFs.Valid, FatFs.Fat, FatFs.Logical, Laid, Clean, Cursor, BytesOf, OthersKept, GoodVolume, CannotGrow,
         Durable, OnDevice, Since;
    ghost var s0 := Start(DevOf(file.fs), file.chain);
    Begun(file, s0);
    success := WriteSave(file, player, sram, s0);
    LogSince(file, s0);
    ghost var blank := old(NewFile(file));
    if blank && success { EntryWaits(file, s0, old(file.View())); }
    closed := CloseSave(file, now, locks, success, blank);
  }

  /** f_close, on a card that may have become read-only behind the last write. */
  method CloseSave(file: File, now: Dword, locks: bool, ghost success: bool, ghost blank: bool) returns (closed: FResult)
    requires file.Inv() && (success ==> AtEnd(file) && file.modified && (file.fs.refuses ==> file.dirty))
    requires success && blank ==> file.objsize != 0 == Word32(file.fs.disk[file.dirSect], file.dirOfs + 28)
    modifies file`modified, file`dirty, file.fs`alive, file.fs`disk, file.fs`wflag, file.fs`faults, file.fs`lostWrites, file.fs`winsect,
             file.fs.win, file.fs`fsiFlag, file.fs`refuses
    ensures file.Inv() && old(file.fs.Log()).Onward(file.fs.Log()) && file.fs.Fat() == old(file.fs.Fat())
    ensures success ==> file.Placed() && file.Data() == old(file.Data())
    ensures success && closed == Ok ==> Durable(file, now)
    ensures file.fs.refuses == (old(file.fs.refuses) || locks) && (file.fs.alive ==> old(file.fs.alive))
    ensures file.fs.refuses ==>
              file.fs.disk == old(file.fs.disk) && file.fs.faults == old(file.fs.faults) + (if closed == DiskErr then 1 else 0)
    ensures success && file.fs.refuses ==> closed != Ok
    ensures success && (old(file.fs.refuses) || (file.fs.refuses && blank)) ==> !OnDevice(file)
  {
    hide FatFs.FsInfoTold, FatFs.Valid, FatFs.Fat, FatFs.Logical, Laid, Clean, Cursor, BytesOf, OthersBut, Durable, OnDevice;
    file.fs.refuses := file.fs.refuses || locks;
    closed := Sync(file, now);
    if success && old(file.fs.refuses) { DirtyNotOnDevice(file); }
    if success && file.fs.refuses && blank { SizeDiffers(file); }
  }

  lemma Begun(file: File, s0: Start)
    requires file.Placed() && s0 == Start(DevOf(file.fs), file.chain)
    ensures Since(file, s0)
  {
    hide FatFs.FsInfoTold, FatFs.Valid, FatFs.Fat, FatFs.Logical, Laid, OthersKept;
    NothingChanged(file.fs.g, s0.dev, s0.chain);
    VolumeIsGood(file.fs);
  }

  /** Nothing but the close writes the entry: the device holds what was to be seen there at the start. */
  lemma EntryWaits(file: File, s0: Start, f0: FileView)
    requires file.Placed() && Since(file, s0) && 0 < file.objsize && Laid(file.fs.g, s0.dev, f0)
    requires f0.chain == s0.chain && f0.sclust == 0 && f0.dirSect == file.dirSect < |s0.dev.view|
    ensures file.dirSect < |file.fs.disk| && file.fs.disk[file.dirSect] == s0.dev.view[file.dirSect]
  {
    hide Sectors, IsChain, PowerOfTwo, FatFs.Fat;
    SectorKept(file.fs.g, s0.dev, s0.chain, DevOf(file.fs), file.chain, -1, file.dirSect);
    EntryShown(file.fs, file.dirSect);
    SectorsLength(file.fs.g, file.chain);
    assert file.chain != [];
  }

  lemma SizeDiffers(file: File)
    requires file.Placed() && Word32(file.fs.disk[file.dirSect], file.dirOfs + 28) != file.objsize
    ensures !OnDevice(file)
  {
  }

  // ------------------------------------------------------------- loading

  /** Why a read may deliver too little: a device error since the error count was base, or the volume is gone. */
  ghost predicate ReadFailed(fs: FatFs, base: nat)
    reads fs`faults, fs`alive
  {
    fs.faults > base || !fs.alive
  }

  /** What is still to be decoded: the unread part of the chunk buffer, then the rest of the file. */
  ghost predicate Loading(file: File, buffer: array<Byte>, k: nat, br: nat, rem: seq<Byte>, base: nat)
    reads file, file.buf, file.fs, file.fs.win, buffer
  {
    && file.Inv() && file.Placed() && buffer.Length == 512 && k <= br <= 512 && file.fptr <= file.objsize
    && file.canRead && base <= file.fs.faults && (file.err == Ok || ReadFailed(file.fs, base))
    && rem == buffer[k..br] + file.Data()[file.fptr..]
  }

  /** The next chunk of the file into the used-up buffer. */
  method Refill(file: File, buffer: array<Byte>, k: nat, br: nat, ghost rem: seq<Byte>, ghost base: nat) returns (br': nat)
    requires Loading(file, buffer, k, br, rem, base) && Apart(file, buffer) && k >= br
    modifies file`fptr, file`clust, file`sect, file`dirty, file`err, file.buf, buffer,
             file.fs`alive, file.fs`disk, file.fs`wflag, file.fs`faults, file.fs`lostWrites, file.fs`winsect, file.fs.win
    ensures file.Inv()
    ensures 0 < br' ==> Loading(file, buffer, 0, br', rem, base)
    ensures br' == 0 ==> rem == [] || ReadFailed(file.fs, base)
  {
    hide FatFs.FsInfoTold, FatFs.Valid, FatFs.Fat, FatFs.Logical, Laid, Clean, Cursor, BytesOf, DevOf;
    ghost var data, p := file.Data(), file.fptr;
    assert rem == data[p..] by { assert buffer[k..br] == []; }
    var res;
    res, br' := Read(file, buffer, 512);
    if br' > 0 {
      SliceThenRest(buffer[..br'], data, p);
      assert buffer[0..br'] == buffer[..br'];
    }
  }

  lemma SliceThenRest(a: seq<Byte>, data: seq<Byte>, p: nat)
    requires IsSlice(a, data, p)
    ensures p + |a| <= |data| && a + data[p + |a|..] == data[p..]
  {
  }

  /** FETCH_BYTE: the next byte, or the end of what can be read. */
  method FetchByte(file: File, buffer: array<Byte>, k: nat, br: nat, ghost rem: seq<Byte>, ghost base: nat)
    returns (k': nat, br': nat, ok: bool, b: Byte)
    requires Loading(file, buffer, k, br, rem, base) && Apart(file, buffer)
    modifies file`fptr, file`clust, file`sect, file`dirty, file`err, file.buf, buffer,
             file.fs`alive, file.fs`disk, file.fs`wflag, file.fs`faults, file.fs`lostWrites, file.fs`winsect, file.fs.win
    ensures file.Inv()
    ensures ok ==> rem != [] && b == rem[0] && Loading(file, buffer, k', br', rem[1..], base)
    ensures !ok ==> rem == [] || ReadFailed(file.fs, base)
  {
    hide File.Inv, File.Placed, File.Data, Laid, Clean, Cursor, BytesOf;
    k', br', ok, b := k, br, true, 0;
    if k' >= br' {
      br' := Refill(file, buffer, k', br', rem, base);
      k' := 0;
      if br' == 0 {
        return k', br', false, b;
      }
    }
    b := buffer[k'];
    OneLess(buffer[k'..br'], file.Data()[file.fptr..], rem);
    assert buffer[k'..br'][1..] == buffer[k' + 1..br'];
    k' := k' + 1;
  }

  lemma OneLess(part: seq<Byte>, rest: seq<Byte>, rem: seq<Byte>)
    requires part != [] && rem == part + rest
    ensures rem != [] && rem[0] == part[0] && rem[1..] == part[1..] + rest
  {
  }

  /** "for (c = 0; c < count; c++)": a run, clipped at the end of the map. */
  method PlaceRun(sram: array<Byte>, idx: nat, block: Byte, count: nat) returns (idx': nat)
    requires idx <= sram.Length
    modifies sram
    ensures idx' == if idx + count <= sram.Length then idx + count else sram.Length
    ensures sram[..idx'] == old(sram[..idx]) + Repeat(block, idx' - idx)
    ensures sram[idx'..] == old(sram[..])[idx'..]
  {
    idx' := idx;
    var c := 0;
    while c < count
      invariant 0 <= c <= count && idx' == if idx + c <= sram.Length then idx + c else sram.Length
      invariant forall i :: 0 <= i < sram.Length ==> sram[i] == if idx <= i < idx' then block else old(sram[i])
    {
      if idx' < sram.Length {
        sram[idx'] := block;
        idx' := idx' + 1;
      }
      c := c + 1;
    }
  }

  /** One byte or one tagged run of the stream. */
  method LoadStep(file: File, buffer: array<Byte>, k: nat, br: nat, sram: array<Byte>, idx: nat, ghost rem: seq<Byte>, ghost base: nat)
    returns (k': nat, br': nat, ok: bool, idx': nat, ghost rem': seq<Byte>)
    requires Loading(file, buffer, k, br, rem, base) && Apart(file, buffer) && Apart(file, sram) && sram != buffer && idx < sram.Length
    modifies file`fptr, file`clust, file`sect, file`dirty, file`err, file.buf, buffer, sram,
             file.fs`alive, file.fs`disk, file.fs`wflag, file.fs`faults, file.fs`lostWrites, file.fs`winsect, file.fs.win
    ensures file.Inv() && idx <= idx' <= sram.Length
    ensures sram[idx'..] == old(sram[..])[idx'..] && sram[..idx] == old(sram[..idx])
    ensures ok ==> Loading(file, buffer, k', br', rem', base) && |rem'| < |rem|
    ensures ok ==> Decode(rem', sram[..idx'], sram.Length) == Decode(rem, old(sram[..idx]), sram.Length)
    ensures !ok ==> idx' == idx && (ReadFailed(file.fs, base) || Decode(rem, old(sram[..idx]), sram.Length) == Short(old(sram[..idx])))
  {
    hide Loading, ReadFailed;
    var val;
    rem', idx' := rem, idx;
    ghost var out := sram[..idx];
    k', br', ok, val := FetchByte(file, buffer, k, br, rem, base);
    assert sram[..idx] == out;
    if !ok { return; }
    if val >= 0x80 {
      var count, block := val - 0x80, 0;
      k', br', ok, block := FetchByte(file, buffer, k', br', rem[1..], base);
      assert sram[..idx] == out;
      if !ok { return; }
      idx' := PlaceRun(sram, idx, block, count);
      assert rem[1..][1..] == rem[2..];
      rem' := rem[2..];
      assert sram[..idx'][..idx] == out;
    } else {
      sram[idx] := val;
      idx' := idx + 1;
      assert sram[..idx'] == out + [val];
      rem' := rem[1..];
    }
  }

  /** The first i blocks are those the stream tells, the others are as they were. */
  ghost predicate LoadedUpTo(m: seq<Byte>, was: seq<Byte>, i: nat, d: Decoded) {
    i <= |m| == |was| && m[i..] == was[i..] && m[..i] <= d.out
  }

  lemma LoadedFurther(m: seq<Byte>, i: nat, m': seq<Byte>, i': nat, was: seq<Byte>, d: Decoded)
    requires LoadedUpTo(m, was, i, d) && i <= i' <= |m'| == |m| && m'[i'..] == m[i'..]
    requires m'[..i'] <= d.out || (i' == i && m'[..i] == m[..i])
    ensures LoadedUpTo(m', was, i', d)
  {
    assert forall j :: i' <= j < |m| ==> m'[j] == m'[i'..][j - i'] == m[i'..][j - i'] == m[j];
    assert forall j :: i' <= j < |m| ==> m[j] == m[i..][j - i] == was[i..][j - i] == was[j];
  }

  method LoadLoop(file: File, buffer: array<Byte>, sram: array<Byte>, ghost code: seq<Byte>, ghost base: nat)
    returns (success: bool, ghost idx: nat)
    requires Loading(file, buffer, 512, 512, code, base) && Apart(file, buffer) && Apart(file, sram) && sram != buffer
    modifies file`fptr, file`clust, file`sect, file`dirty, file`err, file.buf, buffer, sram,
             file.fs`alive, file.fs`disk, file.fs`wflag, file.fs`faults, file.fs`lostWrites, file.fs`winsect, file.fs.win
    ensures file.Inv()
    ensures LoadedUpTo(sram[..], old(sram[..]), idx, Decode(code, [], sram.Length))
    ensures success ==> idx == sram.Length && Decode(code, [], sram.Length).Complete?
    // failure: a failed read, or the stream is too short and all it tells has been written
    ensures success || ReadFailed(file.fs, base) || Decode(code, [], sram.Length) == Short(sram[..idx])
  {
    assert file.Inv();
    hide Loading, Decode, LoadedUpTo, File.Inv, ReadFailed;
    var k: nat, br: nat, i: nat := 512, 512, 0;
    ghost var rem, was, d := code, sram[..], Decode(code, [], sram.Length);
    success := true;
    assert was[..0] == [];
    LoadedFromStart(was, d);
    while i < sram.Length && success
      invariant i <= sram.Length && file.Inv() && LoadedUpTo(sram[..], was, i, d)
      invariant success ==> Loading(file, buffer, k, br, rem, base) && Decode(rem, sram[..i], sram.Length) == d
      invariant success || ReadFailed(file.fs, base) || d == Short(sram[..i])
      decreases success, |rem|
    {
      ghost var before, i0 := sram[..], i;
      k, br, success, i, rem := LoadStep(file, buffer, k, br, sram, i, rem, base);
      assert sram[..][..i] == sram[..i] && sram[..][i..] == sram[i..];
      LoadedFurther(before, i0, sram[..], i, was, d);
    }
    idx := i;
  }

  lemma LoadedFromStart(m: seq<Byte>, d: Decoded)
    ensures LoadedUpTo(m, m, 0, d)
  {
  }

  /**
   LoadMapFromSD on any file whatever. The loop ends, blocks are written in order and only as the
   stream tells them, and failure means that a read failed or that the file is too short.
   */
  method LoadMap(file: File, player: array<Byte>, sram: array<Byte>) returns (success: bool, ghost idx: nat)
    requires file.Inv() && file.err == Ok && file.canRead && file.fptr == 0
    requires Apart(file, player) && Apart(file, sram) && player != sram && 0 < player.Length < 0x1_0000_0000
    modifies file`fptr, file`clust, file`sect, file`dirty, file`err, file.buf, player, sram,
             file.fs`alive, file.fs`disk, file.fs`wflag, file.fs`faults, file.fs`lostWrites, file.fs`winsect, file.fs.win
    ensures file.Inv()
    ensures success ==> Loaded(old(file.Data()), player[..], sram[..])
    ensures success || ReadFailed(file.fs, old(file.fs.faults)) || TooShort(old(file.Data()), player.Length, sram.Length)
    ensures idx <= sram.Length
    // a short file is written as far as it goes
    ensures success || ReadFailed(file.fs, old(file.fs.faults)) || old(file.objsize) < player.Length ||
              Decode(old(file.Data())[player.Length..], [], sram.Length) == Short(sram[..idx])
    ensures 0 < idx ==> player.Length <= old(file.objsize)
    ensures LoadedUpTo(sram[..], old(sram[..]), idx,
              if player.Length <= old(file.objsize) then Decode(old(file.Data())[player.Length..], [], sram.Length) else Short([]))
  {
    hide FatFs.FsInfoTold, FatFs.Valid, FatFs.Fat, FatFs.Logical, Laid, Clean, Cursor, BytesOf, IsSlice;
    FileFacts(file);
    ghost var data, h, base := file.Data(), player.Length, file.fs.faults;
    var res, br := Read(file, player, player.Length);
    idx := 0;
    if res != Ok || br != player.Length {
      return false, 0;
    }
    assert player[..] == data[..h] by { HeaderRead(player[..], data, h); }
    var buffer := new Byte[512];
    assert Loading(file, buffer, 512, 512, data[h..], base) by { assert buffer[512..512] == []; }
    success, idx := LoadLoop(file, buffer, sram, data[h..], base);
  }

  lemma HeaderRead(p: seq<Byte>, data: seq<Byte>, h: nat)
    requires |p| == h && IsSlice(p[..h], data, 0)
    ensures h <= |data| && p == data[..h]
  {
    assert p[..h] == p;
  }

  /** The player's state and the map are those the file encodes. */
  ghost predicate Loaded(data: seq<Byte>, player: seq<Byte>, map_: seq<Byte>) {
    && player <= data && Decode(data[|player|..], [], |map_|) == Complete(map_)
  }

  ghost predicate TooShort(data: seq<Byte>, header: nat, n: nat) {
    |data| < header || Decode(data[header..], [], n).Short?
  }

  /** What SaveMap wrote: loading can only fail by a failing read, and gives back player and map. */
  lemma SavedMapLoads(header: seq<Byte>, m: seq<Byte>, tail: seq<Byte>, player: seq<Byte>, sram: seq<Byte>)
    requires m != [] && forall i :: 0 <= i < |m| ==> m[i] < 0x80
    ensures !TooShort(header + Encode(m) + tail, |header|, |m|)
    ensures |player| == |header| && |sram| == |m| && Loaded(header + Encode(m) + tail, player, sram) ==> player == header && sram == m
  {
    var data := header + Encode(m) + tail;
    assert data[|header|..] == Encode(m) + tail;
    assert data[..|header|] == header;
    RoundTrip(m, tail);
  }

  // ------------------------------------------------------------- save, close, open, load

  /** A closed file opened again at its directory entry's cluster and size reads the same. */
  lemma Reopened(g: Geometry, d: Dev, f: FileView)
    requires Laid(g, d, f) && !f.dirty
    ensures Laid(g, d, FileView(0, 0, 0, f.sclust, f.objsize, false, ZERO_SECTOR, f.chain, f.dirSect))
    ensures BytesOf(g, d, FileView(0, 0, 0, f.sclust, f.objsize, false, ZERO_SECTOR, f.chain, f.dirSect)) == BytesOf(g, d, f)
  {
    hide IsChain, PowerOfTwo;
    FileSectors(g, d, f);
    var s := Sectors(g, f.chain);
    SameView(d.disk, s, false, f.sect, f.buf, d.disk, s, false, 0, ZERO_SECTOR, f.objsize);
  }

  /**
   What the two functions are for: once a save and its close have succeeded, opening the file at its directory
   entry on the device and loading it gives back the player and the map, unless the device fails.
   */
  method SaveThenLoad(file: File, player: array<Byte>, sram: array<Byte>, now: Dword, player': array<Byte>, sram': array<Byte>)
    returns (saved: bool, loaded: bool)
    requires AtEnd(file) && file.objsize == 0
    requires Apart(file, player) && Apart(file, sram) && player != sram && 0 < sram.Length && 0 < player.Length < 0x1_0000_0000
    requires Apart(file, player') && Apart(file, sram') && player' != sram' && {player, sram} !! {player', sram'}
    requires player'.Length == player.Length && sram'.Length == sram.Length
    requires forall i :: 0 <= i < sram.Length ==> sram[i] < 0x80
    modifies file, file.buf, file.fs, file.fs.win, player', sram'
    ensures saved && loaded ==> player'[..] == player[..] && sram'[..] == sram[..]
    ensures saved ==> loaded || ReadFailed(file.fs, old(file.fs.faults))
  {
    hide FatFs.FsInfoTold, FatFs.Valid, FatFs.Fat, FatFs.Logical, Laid, Clean, Cursor, BytesOf, Durable, Loaded, TooShort, LoadedUpTo,
         Decode, LdClust, Word32;
    loaded := false;
    ghost var idx;
    var success, closed := SaveMap(file, player, sram, now, false);
    saved := success && closed == Ok;
    if saved {
      ghost var data := file.Data();
      ghost var f := ReadyToOpen(file, now);
      var res, again := OpenEntry(file.fs, file.dirSect, file.dirOfs, true, false, f);
      if res == Ok {
        assert again.Data() == data;
        loaded, idx := LoadMap(again, player', sram');
        SavedMapLoads(player[..], sram[..], [], player'[..], sram'[..]);
        assert data + [] == data;
      }
    }
  }

  /** The entry on the device leads to the file's bytes. */
  lemma ReadyToOpen(file: File, now: Dword) returns (f: FileView)
    requires file.Placed() && Durable(file, now)
    ensures file.fs.Valid() && file.fs.win.Length == 512 && file.dirOfs + 32 <= 512
    ensures file.fs.g.fatbase + file.fs.g.FatArea() <= file.dirSect < |file.fs.disk|
    ensures f.dirSect == file.dirSect && f.buf == ZERO_SECTOR
    ensures IsOpened(file.fs.g.fsType, file.fs.Logical()[file.dirSect], file.dirOfs, f)
    ensures Laid(file.fs.g, DevOf(file.fs), f) && BytesOf(file.fs.g, DevOf(file.fs), f) == file.Data()
  {
    hide Laid, IsEntry, LdClust, Word32, FatFs.Logical;
    f := FileView(0, 0, 0, file.sclust, file.objsize, false, ZERO_SECTOR, file.chain, file.dirSect);
    var t, s, o := file.fs.g.fsType, file.fs.disk[file.dirSect], file.dirOfs;
    var was :| IsEntry(was, s, t, o, file.sclust, file.objsize, now);
    EntryShown(file.fs, file.dirSect);
    ClusterFits(file.fs.g, DevOf(file.fs), file.View());
    EntryRoundTrip(was, s, t, o, file.sclust, file.objsize, now);
    Reopened(file.fs.g, DevOf(file.fs), file.View());
  }

  /** The 16 bits a FAT12 or FAT16 entry has for the start cluster are enough. */
  lemma ClusterFits(g: Geometry, d: Dev, f: FileView)
    requires Laid(g, d, f)
    ensures g.fsType == Fat32 || f.sclust < 0x1_0000
  {
    hide Sectors, PowerOfTwo;
    if f.chain != [] {
      ChainAllocated(d.fat, f.chain);
      assert f.chain[0] in f.chain;
    }
  }
}
