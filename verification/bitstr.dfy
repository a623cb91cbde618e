/** The memory-backed bit stream of 3rdparty/bitstr.cpp with JPEG byte
    stuffing switched on (`USE_JPEG_BITSTR`).

    The C code keeps a type tag at the head of a heap struct and casts the
    struct pointer to tell the memory and file variants apart; here the memory
    variant is a plain record. The register `bitbuf` is a `uint32_t`, so every
    shift is reduced modulo 2^32. */
module BitStream {
  import opened Bits
  import opened Stuffing

  const EOF: int := -1
  const SEEK_SET: int := 0
  const SEEK_CUR: int := 1
  const SEEK_END: int := 2

  /** Values of the `uint32_t bitbuf` register. */
  type Word = x: int | 0 <= x < 0x1_0000_0000

  /** How `bitbuf` holds the `int` EOF returned by `getc`. */
  const EOF_WORD: Word := 0xFFFF_FFFF

  /** The memory sink: a buffer of `memlen == |buf|` bytes and `curpos`. */
  datatype MemSink = MemSink(buf: seq<Byte>, pos: nat)

  /** The bit accumulator shared by the writer and the reader, over a sink. */
  datatype Stream = Stream(bitbuf: Word, bitnum: int, sink: MemSink)

  /** `bitstr_open(BITSTR_MEM, ...)`: the context is zero-filled by calloc. */
  function Open(buf: seq<Byte>): (st: Stream)
  {
    Stream(0, 0, MemSink(buf, 0))
  }

  // ---------------------------------------------------------------------
  // The memory sink (mbitstr_*)
  // ---------------------------------------------------------------------

  /** `mbitstr_getc`: the byte at `curpos`, or EOF at the end of the buffer. */
  function Getc(s: MemSink): (r: (MemSink, int))
    ensures s.pos < |s.buf| ==> r.1 == s.buf[s.pos] && r.0 == s.(pos := s.pos + 1)
    ensures s.pos >= |s.buf| ==> r.1 == EOF && r.0 == s
  {
    if s.pos >= |s.buf| then (s, EOF) else (s.(pos := s.pos + 1), s.buf[s.pos])
  }

  /** `mbitstr_putc`: stores the low 8 bits of `c` at `curpos` and advances it;
      a full buffer rejects the byte with EOF. */
  function Putc(s: MemSink, c: int): (r: (MemSink, int))
    ensures |r.0.buf| == |s.buf|
    ensures s.pos >= |s.buf| ==> r.1 == EOF && r.0 == s
    ensures s.pos < |s.buf| ==>
      && r.1 == c % 256
      && r.0.pos == s.pos + 1
      && r.0.buf[s.pos] == c % 256
      && (forall i | 0 <= i < |s.buf| && i != s.pos :: r.0.buf[i] == s.buf[i])
  {
    if s.pos >= |s.buf| then (s, EOF)
    else (MemSink(s.buf[s.pos := c % 256], s.pos + 1), c % 256)
  }

  /** `mbitstr_seek`. The target is computed in `long` and stored in
      `int newpos`, which keeps its low 32 bits; an origin other than the
      three SEEK_ constants leaves `newpos` at its initial 0. A successful
      seek drops pending bits. The `long` sum must not overflow. */
  function Seek(st: Stream, offset: int, origin: int): (r: (Stream, int))
    requires InLong(offset) && InLong(LongTarget(st.sink, offset, origin))
    ensures r.1 == 0 || r.1 == EOF
    ensures r.1 == EOF ==> r.0 == st
    ensures r.1 == 0 ==>
      && r.0.bitbuf == 0 && r.0.bitnum == 0
      && r.0.sink.buf == st.sink.buf
      && r.0.sink.pos == SeekTarget(st.sink, offset, origin)
    ensures r.1 == 0 <==> 0 <= SeekTarget(st.sink, offset, origin) <= |st.sink.buf|
  {
    var newpos := SeekTarget(st.sink, offset, origin);
    if newpos < 0 || newpos > |st.sink.buf| then (st, EOF)
    else (Stream(0, 0, MemSink(st.sink.buf, newpos)), 0)
  }

  /** The `long` expression the switch of `mbitstr_seek` assigns. */
  function LongTarget(s: MemSink, offset: int, origin: int): (t: int)
  {
    if origin == SEEK_SET then offset
    else if origin == SEEK_CUR then s.pos + offset
    else if origin == SEEK_END then |s.buf| + offset
    else 0
  }

  /** `newpos` after the switch: the target narrowed to `int`. */
  function SeekTarget(s: MemSink, offset: int, origin: int): (newpos: int)
    ensures InInt(newpos)
    ensures (newpos - LongTarget(s, offset, origin)) % 0x1_0000_0000 == 0
  {
    Int32(LongTarget(s, offset, origin))
  }

  /** A target that fits in an `int` is used as computed: then the seek
      succeeds exactly when it lies in [0, memlen]. */
  lemma SeekInRange(st: Stream, offset: int, origin: int)
    requires InLong(offset) && InInt(LongTarget(st.sink, offset, origin))
    ensures var t := LongTarget(st.sink, offset, origin);
            && SeekTarget(st.sink, offset, origin) == t
            && (Seek(st, offset, origin).1 == 0 <==> 0 <= t <= |st.sink.buf|)
  {
  }

  /** A target outside the `int` range wraps: seeking to 2^32 from the
      start lands on byte 0, and moving 2^32 + 1 from the cursor moves one
      byte forward. */
  lemma SeekWraps(st: Stream)
    requires st.sink.pos < |st.sink.buf| && st.sink.pos < 0x7FFF_FFFF
    ensures Seek(st, 0x1_0000_0000, SEEK_SET) == (Stream(0, 0, MemSink(st.sink.buf, 0)), 0)
    ensures Seek(st, 0x1_0000_0001, SEEK_CUR) == (Stream(0, 0, MemSink(st.sink.buf, st.sink.pos + 1)), 0)
  {
  }

  /** `mbitstr_tell`: the cursor, or EOF for a cursor past the end. */
  function Tell(st: Stream): (r: int)
    ensures r == EOF || 0 <= r <= |st.sink.buf|
    ensures r != EOF ==> r == st.sink.pos
  {
    if st.sink.pos > |st.sink.buf| then EOF else st.sink.pos
  }

  /** A byte stored by `putc` is what `getc` returns after seeking back. */
  lemma PutcThenGetc(st: Stream, c: int)
    requires st.sink.pos < |st.sink.buf| <= 0x7FFF_FFFF
    ensures var p := st.sink.pos;
            var written := Stream(st.bitbuf, st.bitnum, Putc(st.sink, c).0);
            var back := Seek(written, p, SEEK_SET);
            && back.1 == 0
            && Getc(back.0.sink).1 == c % 256
            && Tell(written) == p + 1
  {
  }

  // ---------------------------------------------------------------------
  // The bit writer (bitstr_putb, bitstr_put_bits, bitstr_flush)
  // ---------------------------------------------------------------------

  /** `bitstr_putb`: shift `b` into the register; on the 8th bit emit the low
      byte, then a stuffed 0x00 after 0xFF, and clear the register. When a
      `putc` fails the function returns EOF before the reset, so `bitnum`
      stays at 8 and the register is kept. */
  function Putb(st: Stream, b: Bit): (r: (Stream, int))
    ensures r.1 == b || r.1 == EOF
    ensures st.bitnum != 7 ==> r.1 == b && r.0.sink == st.sink && r.0.bitnum == st.bitnum + 1
  {
    var bb: Word := (st.bitbuf * 2) % 0x1_0000_0000 + b;
    var n := st.bitnum + 1;
    if n != 8 then (Stream(bb, n, st.sink), b)
    else
      var (s1, r1) := Putc(st.sink, bb % 256);
      if r1 == EOF then (Stream(bb, n, s1), EOF)
      else if bb == 0xFF then
        var (s2, r2) := Putc(s1, 0x00);
        if r2 == EOF then (Stream(bb, n, s2), EOF)
        else (Stream(0, 0, s2), b)
      else (Stream(0, 0, s1), b)
  }

  /** Feeds bits to `Putb` in order, stopping at the first EOF as the loop of
      `bitstr_put_bits` does; the flag says whether every bit was accepted. */
  function PutBitSeq(st: Stream, bits: seq<Bit>): (r: (Stream, bool))
    decreases |bits|
  {
    if |bits| == 0 then (st, true)
    else
      var (s1, res) := Putb(st, bits[0]);
      if res == EOF then (s1, false) else PutBitSeq(s1, bits[1..])
  }

  /** `bitstr_put_bits(stream, bits, n)`: the loop shifts `bits` to the top
      of an unsigned word and emits bit 31 `n` times, i.e. the low `n` bits of
      `bits`, most significant first. A shift by `32 - n` outside [0, 32] is
      undefined, hence the precondition; `n == 0` emits nothing. */
  function PutBits(st: Stream, bits: int, n: int): (r: (Stream, int))
    requires 0 <= n <= 32
  {
    var (s1, ok) := PutBitSeq(st, BitsOf(bits, n));
    (s1, if ok then bits else EOF)
  }

  /** The flag bit that `bitstr_flush` pads with. */
  function PadBit(flag: bool): (bit: Bit)
  {
    if flag then 1 else 0
  }

  /** `bitstr_flush(stream, flag)`: pad a pending partial byte with copies
      of the flag bit. `mbitstr_flush` itself always succeeds. A `bitnum`
      above 8 (a writer stuck after a failed `putc`) would make the pad
      length negative, which the C code does not handle. */
  function Flush(st: Stream, flag: bool): (r: (Stream, int))
    requires 0 <= st.bitnum <= 8
    ensures r.1 == 0
    ensures st.bitnum == 0 || st.bitnum == 8 ==> r.0 == st
  {
    var n := if st.bitnum != 0 then 8 - st.bitnum else 0;
    BitsOfZero(0);
    (PutBits(st, if flag then -1 else 0, n).0, 0)
  }

  // ---------------------------------------------------------------------
  // The bit reader (bitstr_getb, bitstr_get_bits)
  // ---------------------------------------------------------------------

  /** The `do ... while (bitbuf == 0xff)` refill loop of `bitstr_getb`:
      returns the first byte (or EOF) after a run of 0xFF bytes and whether
      the run was non-empty. */
  function Refill(s: MemSink, flag: bool): (r: (int, bool, MemSink))
    ensures r.0 == EOF || 0 <= r.0 < 0xFF
    ensures r.2.buf == s.buf
    ensures r.0 == EOF ==> r.2.pos >= |r.2.buf|
    decreases |s.buf| - s.pos
  {
    var (s1, c) := Getc(s);
    if c == 0xFF then Refill(s1, true) else (c, flag, s1)
  }

  /** Takes bit 7 of the register and shifts it left, as `bitstr_getb` does
      when bits are pending. */
  function Extract(st: Stream): (r: (Stream, int))
  {
    (Stream((st.bitbuf * 2) % 0x1_0000_0000, st.bitnum - 1, st.sink), (st.bitbuf / 128) % 2)
  }

  /** `bitstr_getb`. With no pending bits it refills: a 0xFF run ended by
      0x00 stands for one 0xFF data byte, a run ended by any other byte
      yields that byte, and EOF is reported after `bitnum` has been set to 8
      (so the following calls hand out the bits of the all-ones register). */
  function Getb(st: Stream): (r: (Stream, int))
    ensures r.1 == EOF || r.1 == 0 || r.1 == 1
    ensures r.1 == EOF ==> r.0 == Stream(EOF_WORD, 8, r.0.sink) && r.0.sink.pos >= |r.0.sink.buf|
  {
    if st.bitnum == 0 then
      var (c, flag, s1) := Refill(st.sink, false);
      if c == EOF then (Stream(EOF_WORD, 8, s1), EOF)
      else
        var bb: Word := if flag && c == 0 then 0xFF else c;
        Extract(Stream(bb, 8, s1))
    else Extract(st)
  }

  /** The results of `n` consecutive `Getb` calls. */
  function GetBitSeq(st: Stream, n: nat): (r: (seq<int>, Stream))
    ensures |r.0| == n
    decreases n
  {
    if n == 0 then ([], st)
    else
      var (s1, b) := Getb(st);
      var (rest, s2) := GetBitSeq(s1, n - 1);
      ([b] + rest, s2)
  }

  /** `bitstr_get_bits(stream, n)`: `buf = (buf << 1) | getb()`; an EOF
      (-1) sets every bit of `buf`. The `int` accumulator holds at most 31
      value bits and `while (n--)` needs `n >= 0`. */
  function GetBits(st: Stream, n: int): (r: (Stream, int))
    requires 0 <= n <= 31
  {
    GetBitsFrom(st, n, 0)
  }

  function GetBitsFrom(st: Stream, n: nat, acc: int): (r: (Stream, int))
    decreases n
  {
    if n == 0 then (st, acc)
    else
      var (s1, b) := Getb(st);
      GetBitsFrom(s1, n - 1, if b == EOF then -1 else acc * 2 + b)
  }

  /** Every result of a run of `getb` calls is a bit, none is EOF. */
  predicate AllBits(xs: seq<int>)
  {
    forall i | 0 <= i < |xs| :: 0 <= xs[i] <= 1
  }

  /** When no `getb` of the loop reports EOF, `get_bits` shifts the bits
      it reads into the accumulator, most significant first, and leaves the
      stream where those `n` calls leave it. */
  lemma {:induction false} GetBitsValue(st: Stream, n: nat, acc: int)
    requires AllBits(GetBitSeq(st, n).0)
    ensures GetBitsFrom(st, n, acc).0 == GetBitSeq(st, n).1
    ensures GetBitsFrom(st, n, acc).1 == acc * Pow2(n) + ValueOf(GetBitSeq(st, n).0)
    decreases n
  {
    if n > 0 {
      var (s1, b) := Getb(st);
      var rest := GetBitSeq(s1, n - 1).0;
      assert GetBitSeq(st, n).0 == [b] + rest;
      assert AllBits(rest) by {
        forall i | 0 <= i < |rest| ensures 0 <= rest[i] <= 1 {
          assert rest[i] == GetBitSeq(st, n).0[i + 1];
        }
      }
      assert 0 <= b <= 1 by {
        assert b == GetBitSeq(st, n).0[0];
      }
      GetBitsValue(s1, n - 1, acc * 2 + b);
      ValueOfAppend([b], rest);
      assert ValueOf([b]) == b by {
        assert [b][..0] == [];
      }
      AccumulateStep(acc, b, Pow2(n - 1), ValueOf(rest));
    }
  }

  lemma AccumulateStep(acc: int, b: int, p: int, v: int)
    ensures (acc * 2 + b) * p + v == acc * (2 * p) + (b * p + v)
  {
  }

  /** The all-ones register that `getb` leaves after reporting EOF, with
      `k` of its bits still to hand out. */
  function DrainedWord(k: int): (w: Word)
    requires 0 <= k <= 8
    ensures k == 8 ==> w == EOF_WORD
  {
    if k == 8 then 0xFFFF_FFFF else if k == 7 then 0xFFFF_FFFE
    else if k == 6 then 0xFFFF_FFFC else if k == 5 then 0xFFFF_FFF8
    else if k == 4 then 0xFFFF_FFF0 else if k == 3 then 0xFFFF_FFE0
    else if k == 2 then 0xFFFF_FFC0 else if k == 1 then 0xFFFF_FF80
    else 0xFFFF_FF00
  }

  /** A reader past the end of its buffer after an EOF. */
  predicate Drained(st: Stream)
  {
    st.sink.pos >= |st.sink.buf| && 0 <= st.bitnum <= 8 && st.bitbuf == DrainedWord(st.bitnum)
  }

  /** A drained reader hands out the ones of its register, then EOF again,
      and stays drained. */
  lemma DrainedGetb(st: Stream)
    requires Drained(st)
    ensures Getb(st).1 == 1 || Getb(st).1 == EOF
    ensures Drained(Getb(st).0)
  {
  }

  lemma {:induction false} DrainedMinusOne(st: Stream, n: nat)
    requires Drained(st)
    ensures GetBitsFrom(st, n, -1).1 == -1
    decreases n
  {
    if n > 0 {
      DrainedGetb(st);
      DrainedMinusOne(Getb(st).0, n - 1);
    }
  }

  /** Once a `getb` of the loop reports EOF, `get_bits` returns -1: the EOF
      sets every bit of the accumulator, and what follows are the ones of
      the drained register and further EOFs. */
  lemma {:induction false} GetBitsEof(st: Stream, n: nat, acc: int, k: nat)
    requires k < n && GetBitSeq(st, n).0[k] == EOF
    ensures GetBitsFrom(st, n, acc).1 == -1
    decreases n
  {
    var (s1, b) := Getb(st);
    assert GetBitSeq(st, n).0 == [b] + GetBitSeq(s1, n - 1).0;
    if b == EOF {
      assert Drained(s1);
      DrainedMinusOne(s1, n - 1);
    } else {
      GetBitsEof(s1, n - 1, acc * 2 + b, k - 1);
    }
  }

  /** The first `n` results of a longer run of `getb` calls are those of
      `n` calls. */
  lemma {:induction false} GetBitSeqPrefix(st: Stream, n: nat, m: nat)
    requires n <= m
    ensures GetBitSeq(st, m).0[..n] == GetBitSeq(st, n).0
    decreases n
  {
    if n > 0 {
      var s1 := Getb(st).0;
      GetBitSeqPrefix(s1, n - 1, m - 1);
      assert GetBitSeq(st, m).0[..n] == [Getb(st).1] + GetBitSeq(s1, m - 1).0[..n - 1];
    }
  }

  // ---------------------------------------------------------------------
  // What a healthy writer has produced: stuffed bytes plus pending bits
  // ---------------------------------------------------------------------

  /** The sink after `bytes` were stored from its cursor onwards. */
  function Written(s: MemSink, bytes: seq<Byte>): (r: MemSink)
    requires s.pos + |bytes| <= |s.buf|
    ensures |r.buf| == |s.buf| && r.pos == s.pos + |bytes|
    ensures r.buf[s.pos..r.pos] == bytes
  {
    var r := MemSink(s.buf[..s.pos] + bytes + s.buf[s.pos + |bytes|..], s.pos + |bytes|);
    assert r.buf[s.pos..r.pos] == bytes;
    r
  }

  /** Enough room after the cursor for the stuffed form of `bits`. */
  ghost predicate Room(s: MemSink, bits: seq<Bit>)
  {
    s.pos + 2 * (|bits| / 8) <= |s.buf|
  }

  /** The writer state after `bits` were written from a byte boundary at the
      sink `s`: the complete bytes are stored, stuffed, and the remaining
      `|bits| % 8` bits wait in the register. */
  function Ideal(s: MemSink, bits: seq<Bit>): (st: Stream)
    requires Room(s, bits)
    ensures 0 <= st.bitnum < 8 && st.bitnum == |bits| % 8
  {
    Stream(Pending(bits), |bits| % 8, Written(s, Stuff(Stored(bits))))
  }

  /** The complete bytes of a bit string. */
  function Stored(bits: seq<Bit>): (r: seq<Byte>)
    ensures |r| == |bits| / 8
  {
    PackBytes(bits[..Aligned(|bits|)])
  }

  /** The value of the bits after the last complete byte. */
  function Pending(bits: seq<Bit>): (v: nat)
    ensures v < 256
  {
    var tail := bits[Aligned(|bits|)..];
    Pow2Small(|tail|);
    ValueOf(tail)
  }

  lemma PutcWritten(s: MemSink, bytes: seq<Byte>, c: Byte)
    requires s.pos + |bytes| + 1 <= |s.buf|
    ensures Putc(Written(s, bytes), c) == (Written(s, bytes + [c]), c)
  {
    var w := Written(s, bytes);
    var w' := Written(s, bytes + [c]);
    assert Putc(w, c).0.buf == w'.buf;
  }

  lemma RoomPrefix(s: MemSink, bits: seq<Bit>, n: nat)
    requires n <= |bits|
    requires Room(s, bits)
    ensures Room(s, bits[..n])
  {
  }

  lemma RoomFront(s: MemSink, front: seq<Bit>, back: seq<Bit>)
    requires Room(s, front + back)
    ensures Room(s, front)
  {
    RoomPrefix(s, front + back, |front|);
    assert (front + back)[..|front|] == front;
  }

  /** One `putb` on a healthy writer with room to spare. */
  lemma PutbIdeal(s: MemSink, bits: seq<Bit>, b: Bit)
    requires Room(s, bits + [b])
    ensures Room(s, bits)
    ensures Putb(Ideal(s, bits), b) == (Ideal(s, bits + [b]), b)
  {
    RoomPrefix(s, bits + [b], |bits|);
    assert (bits + [b])[..|bits|] == bits;
    if |bits| % 8 < 7 {
      PutbIdealPartial(s, bits, b);
    } else {
      PutbIdealByte(s, bits, b);
    }
  }

  /** Below the 8th bit, `putb` only shifts the bit into the register. */
  lemma PutbShift(st: Stream, b: Bit)
    requires st.bitnum != 7 && st.bitbuf < 128
    ensures Putb(st, b) == (Stream(2 * st.bitbuf + b, st.bitnum + 1, st.sink), b)
  {
  }

  lemma IdealShift(s: MemSink, bits: seq<Bit>, b: Bit)
    requires Room(s, bits + [b]) && Room(s, bits)
    requires |bits| % 8 < 7
    ensures Ideal(s, bits).bitbuf < 128
    ensures Ideal(s, bits + [b])
         == Stream(2 * Ideal(s, bits).bitbuf + b, Ideal(s, bits).bitnum + 1, Ideal(s, bits).sink)
  {
    var bits' := bits + [b];
    var a := Aligned(|bits|);
    var tail := bits[a..];
    assert Ideal(s, bits).bitbuf == ValueOf(tail) < 128 by {
      Pow2Monotone(|tail|, 7);
      Pow2Seven();
    }
    assert Aligned(|bits'|) == a;
    assert bits'[a..] == tail + [b];
    assert bits'[..a] == bits[..a];
    ShiftIn(tail, b);
  }

  lemma PutbIdealPartial(s: MemSink, bits: seq<Bit>, b: Bit)
    requires Room(s, bits + [b]) && Room(s, bits)
    requires |bits| % 8 < 7
    ensures Putb(Ideal(s, bits), b) == (Ideal(s, bits + [b]), b)
  {
    IdealShift(s, bits, b);
    ShiftInto(Ideal(s, bits), Ideal(s, bits + [b]), b);
  }

  /** `putb` shifting `b` into a register with room for it gives `next`. */
  lemma ShiftInto(st: Stream, next: Stream, b: Bit)
    requires st.bitnum < 7 && st.bitbuf < 128
    requires next == Stream(2 * st.bitbuf + b, st.bitnum + 1, st.sink)
    ensures Putb(st, b) == (next, b)
  {
    PutbShift(st, b);
  }

  /** Storing one data byte through `putb`'s two `putc` calls appends its
      stuffed form. */
  lemma PutcStuffed(s: MemSink, done: seq<Byte>, x: Byte)
    requires s.pos + |done| + |StuffByte(x)| <= |s.buf|
    ensures Putc(Written(s, done), x).1 == x
    ensures x != 0xFF ==> Putc(Written(s, done), x).0 == Written(s, done + StuffByte(x))
    ensures x == 0xFF ==> Putc(Putc(Written(s, done), x).0, 0) == (Written(s, done + StuffByte(x)), 0)
  {
    PutcWritten(s, done, x);
    if x == 0xFF {
      PutcWritten(s, done + [x], 0);
      assert done + [x] + [0] == done + StuffByte(x);
    }
  }

  /** The 8th bit completes byte `x`, which is stored in stuffed form. */
  lemma PutbCompletesByte(s: MemSink, done: seq<Byte>, v: Word, b: Bit, x: Byte)
    requires s.pos + |done| + |StuffByte(x)| <= |s.buf|
    requires 2 * v + b == x
    ensures Putb(Stream(v, 7, Written(s, done)), b) == (Stream(0, 0, Written(s, done + StuffByte(x))), b)
  {
    assert (v * 2) % 0x1_0000_0000 + b == x;
    PutcStuffed(s, done, x);
  }

  lemma IdealAligned(s: MemSink, bits: seq<Bit>)
    requires Room(s, bits)
    requires |bits| % 8 == 0
    ensures Ideal(s, bits) == Stream(0, 0, Written(s, Stuff(PackBytes(bits))))
  {
    AlignedNothingPending(bits);
    AlignedAllStored(bits);
  }

  lemma AlignedNothingPending(bits: seq<Bit>)
    requires |bits| % 8 == 0
    ensures Pending(bits) == 0
  {
    assert bits[Aligned(|bits|)..] == [];
  }

  lemma AlignedAllStored(bits: seq<Bit>)
    requires |bits| % 8 == 0
    ensures Stored(bits) == PackBytes(bits)
  {
    assert bits[..Aligned(|bits|)] == bits;
  }

  lemma PutbIdealByte(s: MemSink, bits: seq<Bit>, b: Bit)
    requires Room(s, bits + [b]) && Room(s, bits)
    requires |bits| % 8 == 7
    ensures Putb(Ideal(s, bits), b) == (Ideal(s, bits + [b]), b)
  {
    var a := Aligned(|bits|);
    var tail := bits[a..];
    PackLastByte(bits, b);
    ShiftIn(tail, b);
    var x: Byte := ValueOf(tail + [b]);
    var packed := PackBytes(bits[..a]);
    var done := Stuff(packed);
    assert Stuff(PackBytes(bits + [b])) == done + StuffByte(x) by {
      StuffAppend(packed, [x]);
      assert [x][..0] == [];
    }
    IdealAligned(s, bits + [b]);
    assert Ideal(s, bits) == Stream(ValueOf(tail), 7, Written(s, done));
    PutbCompletesByte(s, done, ValueOf(tail), b, x);
  }

  /** Writing a bit string through a healthy writer with room to spare. */
  lemma {:induction false} PutBitSeqIdeal(s: MemSink, bits: seq<Bit>, more: seq<Bit>)
    requires Room(s, bits + more)
    ensures Room(s, bits)
    ensures PutBitSeq(Ideal(s, bits), more) == (Ideal(s, bits + more), true)
    decreases |more|
  {
    RoomPrefix(s, bits + more, |bits|);
    MoveFirst(bits, more);
    if |more| == 0 {
      assert bits + more == bits;
    } else {
      var b := more[0];
      var bits' := bits + [b];
      RoomPrefix(s, bits + more, |bits'|);
      PutbIdeal(s, bits, b);
      PutBitSeqStep(Ideal(s, bits), more);
      PutBitSeqIdeal(s, bits', more[1..]);
    }
  }

  /** Moving the first bit of `more` over to `bits` keeps the concatenation. */
  lemma MoveFirst(bits: seq<Bit>, more: seq<Bit>)
    ensures (bits + more)[..|bits|] == bits
    ensures |more| > 0 ==> (bits + more)[..|bits| + 1] == bits + [more[0]]
    ensures |more| > 0 ==> bits + [more[0]] + more[1..] == bits + more
  {
    if |more| > 0 {
      assert bits + [more[0]] + more[1..] == bits + more;
    }
  }

  /** A bit that `putb` accepts is followed by the rest of the sequence. */
  lemma PutBitSeqStep(st: Stream, bits: seq<Bit>)
    requires |bits| > 0 && Putb(st, bits[0]).1 != EOF
    ensures PutBitSeq(st, bits) == PutBitSeq(Putb(st, bits[0]).0, bits[1..])
  {
  }

  /** `bitstr_put_bits` on a healthy writer appends the low `n` bits. */
  lemma PutBitsIdeal(s: MemSink, bits: seq<Bit>, v: int, n: int)
    requires 0 <= n <= 32
    requires Room(s, bits + BitsOf(v, n))
    ensures Room(s, bits)
    ensures PutBits(Ideal(s, bits), v, n) == (Ideal(s, bits + BitsOf(v, n)), v)
  {
    PutBitSeqIdeal(s, bits, BitsOf(v, n));
  }

  /** The bits `bitstr_flush(stream, flag)` appends to a healthy writer. */
  function Pad(bits: seq<Bit>, flag: bool): (p: seq<Bit>)
    ensures (|bits| + |p|) % 8 == 0 && |p| < 8
  {
    Repeat(PadBit(flag), if |bits| % 8 != 0 then 8 - |bits| % 8 else 0)
  }

  /** After the flush no bits are pending; a byte-aligned stream is left as
      it was. */
  lemma FlushIdeal(s: MemSink, bits: seq<Bit>, flag: bool)
    requires Room(s, bits + Pad(bits, flag))
    ensures Room(s, bits)
    ensures Flush(Ideal(s, bits), flag).0 == Ideal(s, bits + Pad(bits, flag))
  {
    var p := Pad(bits, flag);
    RoomPrefix(s, bits + p, |bits|);
    assert (bits + p)[..|bits|] == bits;
    PutBitSeqIdeal(s, bits, p);
    FlushPads(Ideal(s, bits), flag);
  }

  /** `bitstr_flush` writes `8 - bitnum` copies of the flag bit, or nothing
      when no bits are pending. */
  lemma FlushPads(st: Stream, flag: bool)
    requires 0 <= st.bitnum <= 8
    ensures Flush(st, flag).0
         == PutBitSeq(st, Repeat(PadBit(flag), if st.bitnum != 0 then 8 - st.bitnum else 0)).0
  {
    var n := if st.bitnum != 0 then 8 - st.bitnum else 0;
    var v := if flag then -1 else 0;
    PadBits(flag, n);
    assert Flush(st, flag).0 == PutBits(st, v, n).0;
  }

  /** `put_bits(-1, n)` and `put_bits(0, n)` emit `n` copies of one bit. */
  lemma PadBits(flag: bool, n: nat)
    ensures BitsOf(if flag then -1 else 0, n) == Repeat(PadBit(flag), n)
  {
    if flag {
      BitsOfMinusOne(n);
    } else {
      BitsOfZero(n);
    }
  }

  // ---------------------------------------------------------------------
  // Failure of the sink
  // ---------------------------------------------------------------------

  /** When the byte completed by the 8th bit cannot be stored, `putb` returns
      EOF with `bitnum` left at 8 and nothing written. */
  lemma PutbFull(st: Stream, b: Bit)
    requires st.bitnum == 7
    requires st.sink.pos >= |st.sink.buf|
    ensures Putb(st, b).1 == EOF
    ensures Putb(st, b).0.bitnum == 8 && Putb(st, b).0.sink == st.sink
  {
  }

  /** Once `bitnum` has passed 7 without a reset it never equals 8 again, so
      no later bit reaches the sink. */
  lemma {:induction false} StuckWriterEmitsNothing(st: Stream, bits: seq<Bit>)
    requires st.bitnum >= 8
    ensures PutBitSeq(st, bits).0.sink == st.sink
    ensures PutBitSeq(st, bits).0.bitnum == st.bitnum + |bits|
    decreases |bits|
  {
    if |bits| > 0 {
      StuckWriterEmitsNothing(Putb(st, bits[0]).0, bits[1..]);
    }
  }

  // ---------------------------------------------------------------------
  // Reading back
  // ---------------------------------------------------------------------

  /** The refill loop skips a run of `k` 0xFF bytes and returns the byte
      that ends it, reporting whether the run was non-empty. */
  lemma {:induction false} RefillSkipsRun(s: MemSink, flag: bool, k: nat)
    requires s.pos + k < |s.buf|
    requires forall j | s.pos <= j < s.pos + k :: s.buf[j] == 0xFF
    requires s.buf[s.pos + k] != 0xFF
    ensures Refill(s, flag) == (s.buf[s.pos + k], flag || k > 0, MemSink(s.buf, s.pos + k + 1))
    decreases k
  {
    if k > 0 {
      RefillSkipsRun(s.(pos := s.pos + 1), true, k - 1);
    }
  }

  /** The data byte `getb` loads after a run of 0xFF bytes: 0xFF when the run
      is closed by 0x00, otherwise the closing byte itself. */
  lemma GetbAfterRun(st: Stream, k: nat)
    requires st.bitnum == 0
    requires st.sink.pos + k < |st.sink.buf|
    requires forall j | st.sink.pos <= j < st.sink.pos + k :: st.sink.buf[j] == 0xFF
    requires st.sink.buf[st.sink.pos + k] != 0xFF
    ensures var c := st.sink.buf[st.sink.pos + k];
            var data: int := if k > 0 && c == 0 then 0xFF else c;
            Getb(st) == (Stream((data * 2) % 0x1_0000_0000, 7, MemSink(st.sink.buf, st.sink.pos + k + 1)), data / 128)
  {
    RefillSkipsRun(st.sink, false, k);
  }

  lemma GetbPending(v: Word, k: int, s: MemSink)
    requires k != 0
    ensures Getb(Stream(v, k, s)) == (Stream((v * 2) % 0x1_0000_0000, k - 1, s), (v / 128) % 2)
  {
  }

  lemma GetBitSeqCons(st: Stream, n: nat)
    requires n > 0
    ensures GetBitSeq(st, n).0 == [Getb(st).1] + GetBitSeq(Getb(st).0, n - 1).0
    ensures GetBitSeq(st, n).1 == GetBitSeq(Getb(st).0, n - 1).1
  {
  }

  lemma ReadPendingBit(v: Word, k: nat, s: MemSink, rest: seq<int>, fin: Stream)
    requires k != 0
    requires GetBitSeq(Stream((v * 2) % 0x1_0000_0000, k - 1, s), k - 1) == (rest, fin)
    ensures GetBitSeq(Stream(v, k, s), k) == ([(v / 128) % 2] + rest, fin)
  {
    GetbPending(v, k, s);
    GetBitSeqCons(Stream(v, k, s), k);
  }

  /** Bit 7 and the next low byte of the register depend only on its low
      byte. */
  lemma LowByteStep(v: Word)
    ensures (v / 128) % 2 == ((v % 256) / 128) % 2
    ensures ((v * 2) % 0x1_0000_0000) % 256 == ((v % 256) * 2) % 256
  {
    var q, r := v / 256, v % 256;
    assert v == 256 * q + r;
    var h := r / 128;
    assert r == 128 * h + r % 128;
    DivModUnique(v, 128, 2 * q + h, r % 128);
    DivModUnique(2 * q + h, 2, q, h);
    DivModUnique(h, 2, 0, h);
    ModOfMod(v * 2, 256, 0x100_0000);
    var e, f := (r * 2) / 256, (r * 2) % 256;
    assert r * 2 == 256 * e + f;
    DivModUnique(v * 2, 256, 2 * q + e, f);
  }

  /** Reducing modulo a multiple of `m` first does not change the residue
      modulo `m`. */
  lemma ModOfMod(w: int, m: int, k: int)
    requires m > 0 && k > 0
    ensures (w % (m * k)) % m == w % m
  {
    var a, b := w / (m * k), w % (m * k);
    assert w == (m * k) * a + b;
    var c, d := b / m, b % m;
    assert b == m * c + d;
    assert w == m * (k * a + c) + d;
    DivModUnique(w, m, k * a + c, d);
  }

  /** `n` `getb` calls with `n` bits pending read the top `n` bits of the
      register's low byte. */
  lemma {:induction false} ReadRegister(v: Word, n: nat, s: MemSink)
    ensures GetBitSeq(Stream(v, n, s), n).0 == TopBits(v % 256, n)
    ensures GetBitSeq(Stream(v, n, s), n).1.bitnum == 0
    ensures GetBitSeq(Stream(v, n, s), n).1.sink == s
    decreases n
  {
    if n > 0 {
      var v': Word := (v * 2) % 0x1_0000_0000;
      ReadRegister(v', n - 1, s);
      ReadPendingBit(v, n, s, TopBits(v' % 256, n - 1), GetBitSeq(Stream(v', n - 1, s), n - 1).1);
      LowByteStep(v);
    }
  }

  /** Eight `getb` calls on a register loaded with byte `x` return its bits. */
  lemma ExtractByte(x: Byte, s: MemSink)
    ensures GetBitSeq(Stream(x, 8, s), 8).0 == ByteBits(x)
    ensures GetBitSeq(Stream(x, 8, s), 8).1.bitnum == 0
    ensures GetBitSeq(Stream(x, 8, s), 8).1.sink == s
  {
    assert x % 256 == x;
    ReadRegister(x, 8, s);
  }

  lemma {:induction false} GetBitSeqSplit(st: Stream, a: nat, b: nat)
    ensures var (first, mid) := GetBitSeq(st, a);
            GetBitSeq(st, a + b) == (first + GetBitSeq(mid, b).0, GetBitSeq(mid, b).1)
    decreases a
  {
    if a > 0 {
      var (s1, b0) := Getb(st);
      GetBitSeqSplit(s1, a - 1, b);
      var (first', mid) := GetBitSeq(s1, a - 1);
      assert GetBitSeq(st, a) == ([b0] + first', mid);
      assert GetBitSeq(st, a + b).0 == [b0] + GetBitSeq(s1, a - 1 + b).0;
      assert GetBitSeq(st, a + b).1 == GetBitSeq(s1, a - 1 + b).1;
      assert [b0] + (first' + GetBitSeq(mid, b).0) == [b0] + first' + GetBitSeq(mid, b).0;
    } else {
      assert [] + GetBitSeq(st, b).0 == GetBitSeq(st, b).0;
    }
  }

  /** `n` reads from `st` yield `bits` and stop on a byte boundary at
      index `p` of the same buffer. */
  predicate ReadTo(st: Stream, n: nat, bits: seq<int>, p: nat)
  {
    var (got, next) := GetBitSeq(st, n);
    got == bits && next.bitnum == 0 && next.sink == MemSink(st.sink.buf, p)
  }

  /** `buf` holds `y` from index `p` on. */
  predicate Holds(buf: seq<Byte>, p: nat, y: seq<Byte>)
  {
    p + |y| <= |buf| && buf[p..p + |y|] == y
  }

  /** Reading one stuffed byte from a byte boundary yields its 8 bits and
      consumes its stuffed form. */
  lemma ReadStuffedByte(st: Stream, x: Byte)
    requires st.bitnum == 0
    requires Holds(st.sink.buf, st.sink.pos, StuffByte(x))
    ensures GetBitSeq(st, 8).0 == ByteBits(x)
    ensures GetBitSeq(st, 8).1.bitnum == 0
    ensures GetBitSeq(st, 8).1.sink == MemSink(st.sink.buf, st.sink.pos + |StuffByte(x)|)
  {
    var s1 := MemSink(st.sink.buf, st.sink.pos + |StuffByte(x)|);
    RefillStuffedByte(st, x);
    SameFirstGetb(st, Stream(x, 8, s1), 8);
    ExtractByte(x, s1);
  }

  /** The refill of a reader at a stuffed byte yields that byte and moves
      past its stuffed form. */
  lemma RefillStuffedByte(st: Stream, x: Byte)
    requires st.bitnum == 0
    requires Holds(st.sink.buf, st.sink.pos, StuffByte(x))
    ensures Getb(st) == Getb(Stream(x, 8, MemSink(st.sink.buf, st.sink.pos + |StuffByte(x)|)))
  {
    var p := st.sink.pos;
    assert st.sink.buf[p] == x;
    if x == 0xFF {
      assert st.sink.buf[p + 1] == 0;
      RefillSkipsRun(st.sink, false, 1);
    } else {
      RefillSkipsRun(st.sink, false, 0);
    }
  }

  /** Runs of `getb` calls that start with the same call go on alike. */
  lemma SameFirstGetb(a: Stream, b: Stream, n: nat)
    requires n > 0 && Getb(a) == Getb(b)
    ensures GetBitSeq(a, n) == GetBitSeq(b, n)
  {
  }

  lemma SliceSplit(buf: seq<Byte>, p: nat, x: seq<Byte>, y: seq<Byte>)
    requires Holds(buf, p, x + y)
    ensures Holds(buf, p, x) && Holds(buf, p + |x|, y)
  {
    assert buf[p..p + |x|] == buf[p..p + |x| + |y|][..|x|];
    assert buf[p + |x|..p + |x| + |y|] == buf[p..p + |x| + |y|][|x|..];
  }

  /** Reading a stuffed byte string from a byte boundary yields its bits. */
  lemma {:induction false} ReadStuffed(st: Stream, bytes: seq<Byte>)
    requires st.bitnum == 0
    requires Holds(st.sink.buf, st.sink.pos, Stuff(bytes))
    ensures ReadTo(st, 8 * |bytes|, Unpack(bytes), st.sink.pos + |Stuff(bytes)|)
    decreases |bytes|
  {
    if |bytes| == 0 {
      assert Unpack(bytes) == [] && |Stuff(bytes)| == 0;
      ReadNothing(st, 8 * |bytes|, Unpack(bytes), st.sink.pos + |Stuff(bytes)|);
    } else {
      var init, x := bytes[..|bytes| - 1], bytes[|bytes| - 1];
      LastByteHeld(st.sink.buf, st.sink.pos, bytes);
      UnpackLast(bytes);
      StuffLast(bytes);
      assert 8 * |bytes| == 8 * |init| + 8;
      ReadStuffed(st, init);
      ReadOneMore(st, 8 * |init|, 8 * |bytes|, Unpack(init), x, Unpack(bytes),
        st.sink.pos + |Stuff(init)|, st.sink.pos + |Stuff(bytes)|);
    }
  }

  /** No reads leave the stream as it is. */
  lemma ReadNothing(st: Stream, n: nat, bits: seq<int>, p: nat)
    requires st.bitnum == 0 && n == 0 && bits == [] && p == st.sink.pos
    ensures ReadTo(st, n, bits, p)
  {
  }

  /** A held stuffed byte string is its front, held, then its last byte,
      held. */
  lemma LastByteHeld(buf: seq<Byte>, p: nat, bytes: seq<Byte>)
    requires |bytes| > 0 && Holds(buf, p, Stuff(bytes))
    ensures var init, x := bytes[..|bytes| - 1], bytes[|bytes| - 1];
            && Holds(buf, p, Stuff(init))
            && Holds(buf, p + |Stuff(init)|, StuffByte(x))
            && |Stuff(bytes)| == |Stuff(init)| + |StuffByte(x)|
            && Unpack(bytes) == Unpack(init) + ByteBits(x)
  {
    var init, x := bytes[..|bytes| - 1], bytes[|bytes| - 1];
    StuffLast(bytes);
    SliceSplit(buf, p, Stuff(init), StuffByte(x));
    UnpackLast(bytes);
  }

  /** One more stuffed byte, at `p`, after a read of `n` bits that ended on
      a byte boundary there. */
  lemma ReadOneMore(st: Stream, n: nat, m: nat, first: seq<int>, x: Byte, want: seq<int>, p: nat, q: nat)
    requires m == n + 8 && want == first + ByteBits(x) && q == p + |StuffByte(x)|
    requires ReadTo(st, n, first, p)
    requires Holds(st.sink.buf, p, StuffByte(x))
    ensures ReadTo(st, m, want, q)
  {
    var mid := GetBitSeq(st, n).1;
    GetBitSeqSplit(st, n, 8);
    ReadStuffedByte(mid, x);
  }

  /** A fresh memory stream is a healthy writer that has written nothing. */
  lemma OpenIdeal(buf: seq<Byte>)
    ensures Open(buf) == Ideal(MemSink(buf, 0), [])
  {
    assert Stored([]) == [];
    AlignedNothingPending([]);
    assert buf[..0] + [] + buf[0..] == buf;
  }

  /** Writing `bits` into a fresh memory stream and flushing it. */
  lemma WriteFlushIdeal(buf: seq<Byte>, bits: seq<Bit>, flag: bool)
    requires Room(MemSink(buf, 0), bits + Pad(bits, flag))
    ensures var w0 := PutBitSeq(Open(buf), bits).0;
            && 0 <= w0.bitnum < 8
            && Flush(w0, flag).0 == Ideal(MemSink(buf, 0), bits + Pad(bits, flag))
  {
    var s := MemSink(buf, 0);
    RoomPrefix(s, bits + Pad(bits, flag), |bits|);
    assert (bits + Pad(bits, flag))[..|bits|] == bits;
    OpenIdeal(buf);
    assert [] + bits == bits;
    PutBitSeqIdeal(s, [], bits);
    FlushIdeal(s, bits, flag);
  }

  /** A healthy writer that wrote whole bytes from the start of a memory
      buffer left a buffer from which `bitstr_getb` reads the bits back. */
  lemma ReadBackIdeal(buf: seq<Byte>, bits: seq<Bit>)
    requires |bits| % 8 == 0
    requires Room(MemSink(buf, 0), bits)
    ensures GetBitSeq(Open(Ideal(MemSink(buf, 0), bits).sink.buf), |bits|).0 == bits
  {
    var bytes := PackBytes(bits);
    AlignedAllStored(bits);
    var w := Written(MemSink(buf, 0), Stuff(bytes));
    assert w == Ideal(MemSink(buf, 0), bits).sink;
    assert Holds(w.buf, 0, Stuff(bytes));
    ReadStuffed(Open(w.buf), bytes);
    UnpackPackBytes(bits);
  }

  /** Round trip of the bit layer: bits written through `bitstr_putb` into a
      fresh memory stream with room for them, padded by `bitstr_flush`, are
      read back by `bitstr_getb`, stuffing and de-stuffing included. */
  lemma WriteFlushReadBack(buf: seq<Byte>, bits: seq<Bit>, flag: bool)
    requires 2 * ((|bits| + 7) / 8) <= |buf|
    ensures var w0 := PutBitSeq(Open(buf), bits).0;
            && 0 <= w0.bitnum < 8
            && var w := Flush(w0, flag).0;
            var padded := bits + Pad(bits, flag);
            && w.bitnum == 0
            && GetBitSeq(Open(w.sink.buf), |padded|).0 == padded
            && GetBitSeq(Open(w.sink.buf), |padded|).0[..|bits|] == bits
  {
    var padded := bits + Pad(bits, flag);
    assert |padded| / 8 == (|bits| + 7) / 8;
    assert padded[..|bits|] == bits;
    WriteFlushIdeal(buf, bits, flag);
    ReadBackIdeal(buf, padded);
  }

  /** `bitstr_get_bits` undoes `bitstr_put_bits`: a value of `n <= 31`
      bits written to a fresh memory stream with room and flushed is read
      back from the start of the buffer. */
  lemma PutGetBits(buf: seq<Byte>, v: int, n: nat, flag: bool)
    requires n <= 31 && 0 <= v < Pow2(n)
    requires 2 * ((n + 7) / 8) <= |buf|
    ensures var w0 := PutBits(Open(buf), v, n).0;
            && 0 <= w0.bitnum <= 8
            && var w := Flush(w0, flag).0;
            GetBits(Open(w.sink.buf), n).1 == v
  {
    var bits := BitsOf(v, n);
    WriteFlushReadBack(buf, bits, flag);
    var w := Flush(PutBitSeq(Open(buf), bits).0, flag).0;
    var padded := bits + Pad(bits, flag);
    var reader := Open(w.sink.buf);
    GetBitSeqPrefix(reader, n, |padded|);
    assert GetBitSeq(reader, n).0 == bits;
    GetBitsValue(reader, n, 0);
    ValueOfBitsOf(v, n);
  }

  /** The cursor `mbitstr_tell` reports moves by one for each byte `putc`
      or `getc` transfers and stays put when they report EOF. */
  lemma TellCounts(st: Stream, c: int)
    requires st.sink.pos <= |st.sink.buf|
    ensures Tell(st) != EOF
    ensures var (s1, r) := Putc(st.sink, c);
            Tell(st.(sink := s1)) == if r == EOF then Tell(st) else Tell(st) + 1
    ensures var (s1, r) := Getc(st.sink);
            Tell(st.(sink := s1)) == if r == EOF then Tell(st) else Tell(st) + 1
  {
  }
}
