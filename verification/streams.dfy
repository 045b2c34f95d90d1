/**
  The typed encodings of `Stream` (src/io/nStream.cc): length-prefixed
  strings, CR/LF terminated lines, colours, matrices and stream-to-stream
  copy, all built on two primitives, reading and writing a run of bytes.

  The primitives belong to the concrete stream classes, which are not part of
  this model; here a stream is a memory stream of bounded capacity:
  - reading `n` bytes succeeds exactly when `n` bytes remain after the
    position; a failed read changes nothing but the status, which becomes
    `EOS`;
  - writing overwrites (and may extend) the data at the position and
    succeeds exactly when the end stays within the capacity; a failed write
    changes nothing but the status, which becomes `IOError`.
*/
module Streams {
  import opened Types

  /** `Stream::Status`. */
  datatype Status = Ok | IOError | EOS | IllegalCall | Closed | UnknownError

  /** The bytes of the stream, the read/write position, the largest size it may grow to, and its status. */
  datatype Stream = Stream(data: seq<byte>, position: nat, capacity: nat, status: Status)

  predicate Valid(s: Stream) {
    s.position <= |s.data| <= s.capacity
  }

  /** `getStreamSize() - getPosition()`. */
  function Remaining(s: Stream): nat
    requires Valid(s)
  {
    |s.data| - s.position
  }

  /** `setPosition(p)`. */
  function Seek(s: Stream, p: nat): (r: Stream)
    requires Valid(s) && p <= |s.data|
    ensures Valid(r)
  {
    s.(position := p)
  }

  /** The outcome of a read: the success flag, the value read, and the stream afterwards. */
  datatype Read<T> = Read(ok: bool, value: T, stream: Stream)

  /** The outcome of a write: the success flag and the stream afterwards. */
  datatype Wrote = Wrote(ok: bool, stream: Stream)

  /** The bytes `bs` sit at offset `p` of the stream's data. */
  predicate Holds(s: Stream, p: nat, bs: seq<byte>) {
    p + |bs| <= |s.data| && s.data[p..p + |bs|] == bs
  }

  // ---------------------------------------------------------------------------
  //   The byte primitives
  // ---------------------------------------------------------------------------

  /** `read(n, buf)`. A failed read yields no bytes. */
  function ReadBytes(s: Stream, n: nat): (r: Read<seq<byte>>)
    requires Valid(s)
    ensures Valid(r.stream) && r.stream.data == s.data && r.stream.capacity == s.capacity
    ensures r.ok <==> n <= Remaining(s)
    ensures r.ok ==> (|r.value| == n && Holds(s, s.position, r.value)
      && r.stream == s.(position := s.position + n))
    ensures !r.ok ==> r.stream == s.(status := EOS)
  {
    if s.position + n <= |s.data| then Read(true, s.data[s.position..s.position + n], s.(position := s.position + n))
    else Read(false, [], s.(status := EOS))
  }

  /** `data` with `bs` written over it from offset `p`. */
  function Overwrite(data: seq<byte>, p: nat, bs: seq<byte>): (r: seq<byte>)
    requires p <= |data|
    ensures |r| == if p + |bs| < |data| then |data| else p + |bs|
    ensures r[..p] == data[..p] && r[p..p + |bs|] == bs
    ensures p + |bs| < |data| ==> r[p + |bs|..] == data[p + |bs|..]
  {
    data[..p] + bs + (if p + |bs| < |data| then data[p + |bs|..] else [])
  }

  /** `write(n, buf)`. */
  function WriteBytes(s: Stream, bs: seq<byte>): (w: Wrote)
    requires Valid(s)
    ensures Valid(w.stream) && w.stream.capacity == s.capacity
    ensures w.ok <==> s.position + |bs| <= s.capacity
    ensures w.ok ==> Holds(w.stream, s.position, bs) && w.stream.position == s.position + |bs|
    ensures !w.ok ==> w.stream == s.(status := IOError)
  {
    if s.position + |bs| <= s.capacity then
      Wrote(true, s.(data := Overwrite(s.data, s.position, bs), position := s.position + |bs|))
    else Wrote(false, s.(status := IOError))
  }

  /** A write leaves the bytes before the position where they were. */
  lemma WriteKeeps(s: Stream, bs: seq<byte>, p: nat, x: seq<byte>)
    requires Valid(s) && Holds(s, p, x) && p + |x| <= s.position
    ensures Holds(WriteBytes(s, bs).stream, p, x)
  {
    var w := WriteBytes(s, bs);
    if w.ok {
      var d := Overwrite(s.data, s.position, bs);
      assert d[..s.position] == s.data[..s.position];
      forall i | p <= i < p + |x|
        ensures d[i] == s.data[i]
      {
        assert d[i] == d[..s.position][i];
      }
    }
  }

  /** Adjacent runs of bytes make one run. */
  lemma HoldsConcat(s: Stream, p: nat, x: seq<byte>, y: seq<byte>)
    ensures Holds(s, p, x) && Holds(s, p + |x|, y) <==> Holds(s, p, x + y)
  {
    if Holds(s, p, x + y) {
      assert s.data[p..p + |x|] == (x + y)[..|x|];
      assert s.data[p + |x|..p + |x| + |y|] == (x + y)[|x|..];
    }
    if Holds(s, p, x) && Holds(s, p + |x|, y) {
      assert s.data[p..p + |x| + |y|] == s.data[p..p + |x|] + s.data[p + |x|..p + |x| + |y|];
    }
  }

  /** Reading the first bytes of what the stream holds at its position. */
  lemma ReadHeld(s: Stream, x: seq<byte>, y: seq<byte>)
    requires Valid(s) && Holds(s, s.position, x + y)
    ensures var r := ReadBytes(s, |x|);
      r.ok && r.value == x && Holds(r.stream, r.stream.position, y)
  {
    HoldsConcat(s, s.position, x, y);
  }

  // ---------------------------------------------------------------------------
  //   Fixed-width values
  // ---------------------------------------------------------------------------

  /** A `U32` in the stream's little-endian byte order. */
  function EncodeU32(x: u32): (bs: seq<byte>)
    ensures |bs| == 4
  {
    var v0 := x as int;
    var v1 := v0 / 0x100;
    var v2 := v1 / 0x100;
    [(v0 % 0x100) as byte, (v1 % 0x100) as byte, (v2 % 0x100) as byte, (v2 / 0x100) as byte]
  }

  /** The value of four little-endian bytes. */
  function DecodeU32(bs: seq<byte>): (x: u32)
    requires |bs| == 4
    ensures EncodeU32(x) == bs
  {
    var v2 := bs[3] as int * 0x100 + bs[2] as int;
    var v1 := v2 * 0x100 + bs[1] as int;
    var v0 := v1 * 0x100 + bs[0] as int;
    DigitSplit(v2, bs[2] as int);
    DigitSplit(v1, bs[1] as int);
    DigitSplit(v0, bs[0] as int);
    DigitSplit(bs[3] as int * 0x100 + bs[2] as int, bs[2] as int);
    v0 as u32
  }

  /** Splitting off the low base-256 digit. */
  lemma DigitSplit(v: int, low: int)
    requires 0 <= low < 0x100 && v >= low && (v - low) % 0x100 == 0
    ensures v % 0x100 == low && v / 0x100 == (v - low) / 0x100
  {
  }

  /** Decoding the four bytes of a `U32` gives it back. */
  lemma DecodeEncodeU32(x: u32)
    ensures DecodeU32(EncodeU32(x)) == x
  {
    var bs := EncodeU32(x);
    assert EncodeU32(DecodeU32(bs)) == bs;
    EncodeInjective(x, DecodeU32(bs));
  }

  /** Different values have different encodings. */
  lemma EncodeInjective(x: u32, y: u32)
    requires EncodeU32(x) == EncodeU32(y)
    ensures x == y
  {
    var a := x as int;
    var b := y as int;
    assert a == ((a / 0x100 / 0x100 / 0x100 * 0x100 + a / 0x100 / 0x100 % 0x100) * 0x100 + a / 0x100 % 0x100) * 0x100 + a % 0x100;
    assert b == ((b / 0x100 / 0x100 / 0x100 * 0x100 + b / 0x100 / 0x100 % 0x100) * 0x100 + b / 0x100 % 0x100) * 0x100 + b % 0x100;
  }

  /** `write(U32)`. */
  function WriteU32(s: Stream, x: u32): (w: Wrote)
    requires Valid(s)
  {
    WriteBytes(s, EncodeU32(x))
  }

  /** `read(&U32)`; a failed read leaves the destination at `prior`. */
  function ReadU32(s: Stream, prior: u32): (r: Read<u32>)
    requires Valid(s)
    ensures Valid(r.stream)
    ensures r.ok <==> 4 <= Remaining(s)
    ensures r.ok ==> Holds(s, s.position, EncodeU32(r.value)) && r.stream == s.(position := s.position + 4)
    ensures !r.ok ==> r.value == prior && r.stream == s.(status := EOS)
  {
    var b := ReadBytes(s, 4);
    Read(b.ok, if b.ok then DecodeU32(b.value) else prior, b.stream)
  }

  // ---------------------------------------------------------------------------
  //   C strings
  // ---------------------------------------------------------------------------

  /** `dStrlen`: the bytes before the first NUL (the whole buffer when it holds none). */
  function Strlen(str: seq<byte>): (n: nat)
    ensures n <= |str|
    ensures forall i :: 0 <= i < n ==> str[i] != 0
    ensures n == |str| || str[n] == 0
  {
    if str == [] || str[0] == 0 then 0 else 1 + Strlen(str[1..])
  }

  /** The length `writeString` records: `strlen` (0 for NULL) clamped to `maxLen`. */
  function StringLength(str: Option<seq<byte>>, maxLen: int): int {
    var len := if str.Some? then Strlen(str.value) else 0;
    if len > maxLen then maxLen else len
  }

  /** The bytes `writeString(str, maxLen)` emits: the length as a `U8`, then that many bytes of the string. */
  function StringEncoding(str: Option<seq<byte>>, maxLen: nat): seq<byte> {
    var len := StringLength(str, maxLen);
    [(len % 0x100) as byte] + (if len == 0 then [] else str.value[..len])
  }

  /**
    `writeString(str, maxLen)`: one length byte, then the string's first
    `len` bytes. The length byte is `len` truncated to 8 bits, so the record
    only reads back when `maxLen <= 255`, the default.
  */
  function WriteString(s: Stream, str: Option<seq<byte>>, maxLen: nat): (r: Stream)
    requires Valid(s)
    ensures Valid(r) && r.capacity == s.capacity
  {
    var len := StringLength(str, maxLen);
    var w := WriteBytes(s, [(len % 0x100) as byte]);
    if len == 0 then w.stream else WriteBytes(w.stream, str.value[..len]).stream
  }

  /** When the record fits, `writeString` leaves exactly its encoding at the old position and moves past it. */
  lemma WriteStringWrites(s: Stream, str: Option<seq<byte>>, maxLen: nat)
    requires Valid(s)
    requires s.position + |StringEncoding(str, maxLen)| <= s.capacity
    ensures var r := WriteString(s, str, maxLen);
      Holds(r, s.position, StringEncoding(str, maxLen))
      && r.position == s.position + |StringEncoding(str, maxLen)|
  {
    var len := StringLength(str, maxLen);
    var w := WriteBytes(s, [(len % 0x100) as byte]);
    if len != 0 {
      var r := WriteString(s, str, maxLen);
      WriteKeeps(w.stream, str.value[..len], s.position, [(len % 0x100) as byte]);
      HoldsConcat(r, s.position, [(len % 0x100) as byte], str.value[..len]);
    }
  }

  /**
    `readString(buf)`: a length byte, then that many bytes, NUL-terminated.
    When either read fails the buffer's contents are not determined; the
    outcome is then not `ok` and carries no bytes.
  */
  function ReadString(s: Stream): (r: Read<seq<byte>>)
    requires Valid(s)
    ensures Valid(r.stream)
    ensures r.ok <==> 1 <= Remaining(s) && 1 + s.data[s.position] as int <= Remaining(s)
    ensures r.ok ==> var len := s.data[s.position] as int;
      && r.value == s.data[s.position + 1..s.position + 1 + len] + [0]
      && r.stream == s.(position := s.position + 1 + len)
  {
    var l := ReadBytes(s, 1);
    if !l.ok then Read(false, [], l.stream)
    else
      var p := ReadBytes(l.stream, l.value[0] as nat);
      if p.ok then Read(true, p.value + [0], p.stream) else Read(false, [], p.stream)
  }

  /** A string whose clamped length fits the length byte reads back as its first `len` bytes, NUL-terminated. */
  lemma StringRoundTrip(s: Stream, str: Option<seq<byte>>, maxLen: nat)
    requires Valid(s) && StringLength(str, maxLen) <= 255
    requires s.position + |StringEncoding(str, maxLen)| <= s.capacity
    ensures var len := StringLength(str, maxLen);
      var w := WriteString(s, str, maxLen);
      var r := ReadString(Seek(w, s.position));
      && r.ok
      && r.value == (if len == 0 then [] else str.value[..len]) + [0]
      && r.stream.position == s.position + 1 + len
  {
    var len := StringLength(str, maxLen);
    var w := WriteString(s, str, maxLen);
    var payload := if len == 0 then [] else str.value[..len];
    WriteStringWrites(s, str, maxLen);
    assert StringEncoding(str, maxLen) == [len as byte] + payload;
    HoldsConcat(w, s.position, [len as byte], payload);
  }

  /**
    `writeString` with `maxLen > 255` can record a length byte that disagrees
    with the bytes that follow: 256 non-NUL bytes are written after a length
    byte of 0, so `readString` at the same place returns the empty string and
    stops one byte in, not after the 257 bytes written.
  */
  lemma WriteStringLengthWraps(s: Stream)
    requires Valid(s) && s.position + 257 <= s.capacity
    ensures var str := Some(seq(256, i => 1 as byte));
      var w := WriteString(s, str, 256);
      var r := ReadString(Seek(w, s.position));
      && w.position == s.position + 257
      && r.ok && r.value == [0] && r.stream.position == s.position + 1
  {
    var str := Some(seq(256, i => 1 as byte));
    assert Strlen(str.value) == 256 by {
      StrlenAll(str.value);
    }
    assert |StringEncoding(str, 256)| == 257 && StringEncoding(str, 256)[0] == 0;
    WriteStringWrites(s, str, 256);
    var w := WriteString(s, str, 256);
    assert w.data[s.position] == StringEncoding(str, 256)[0];
  }

  lemma StrlenAll(str: seq<byte>)
    requires forall i :: 0 <= i < |str| ==> str[i] != 0
    ensures Strlen(str) == |str|
  {
  }

  /** `writeLongString(maxStringLen, str)`: the length as a `U32`, clamped to `maxStringLen`, then that many bytes. */
  function LongStringEncoding(maxStringLen: u32, str: seq<byte>): seq<byte> {
    var len := LongStringLength(maxStringLen, str);
    EncodeU32(len) + str[..len]
  }

  function LongStringLength(maxStringLen: u32, str: seq<byte>): (len: u32)
    ensures len as int <= Strlen(str) && len <= maxStringLen
    ensures len == maxStringLen || len as int == Strlen(str)
  {
    if Strlen(str) > maxStringLen as int then maxStringLen else Strlen(str) as u32
  }

  function WriteLongString(s: Stream, maxStringLen: u32, str: seq<byte>): (r: Stream)
    requires Valid(s)
    ensures Valid(r) && r.capacity == s.capacity
  {
    var len := LongStringLength(maxStringLen, str);
    WriteBytes(WriteU32(s, len).stream, str[..len]).stream
  }

  /** When the record fits, `writeLongString` leaves exactly its encoding at the old position and moves past it. */
  lemma WriteLongStringWrites(s: Stream, maxStringLen: u32, str: seq<byte>)
    requires Valid(s)
    requires s.position + |LongStringEncoding(maxStringLen, str)| <= s.capacity
    ensures var r := WriteLongString(s, maxStringLen, str);
      Holds(r, s.position, LongStringEncoding(maxStringLen, str))
      && r.position == s.position + |LongStringEncoding(maxStringLen, str)|
  {
    var len := LongStringLength(maxStringLen, str);
    var w := WriteU32(s, len);
    var r := WriteLongString(s, maxStringLen, str);
    WriteKeeps(w.stream, str[..len], s.position, EncodeU32(len));
    HoldsConcat(r, s.position, EncodeU32(len), str[..len]);
  }

  /**
    `readLongString(maxStringLen, buf)`: a `U32` length, then that many bytes,
    NUL-terminated. A length above `maxStringLen` sets `IOError` and reads no
    more. As with `ReadString`, a failed read leaves the buffer undetermined.
  */
  function ReadLongString(s: Stream, maxStringLen: u32): (r: Read<seq<byte>>)
    requires Valid(s)
    ensures Valid(r.stream)
  {
    var l := ReadU32(s, 0);
    if !l.ok then Read(false, [], l.stream)
    else if l.value > maxStringLen then Read(false, [], l.stream.(status := IOError))
    else
      var p := ReadBytes(l.stream, l.value as nat);
      if p.ok then Read(true, p.value + [0], p.stream) else Read(false, [], p.stream)
  }

  /** A long string written and read with the same bound reads back as its clamped prefix. */
  lemma LongStringRoundTrip(s: Stream, maxStringLen: u32, str: seq<byte>)
    requires Valid(s)
    requires s.position + |LongStringEncoding(maxStringLen, str)| <= s.capacity
    ensures var len := LongStringLength(maxStringLen, str);
      var w := WriteLongString(s, maxStringLen, str);
      var r := ReadLongString(Seek(w, s.position), maxStringLen);
      && r.ok
      && r.value == str[..len] + [0]
      && r.stream.position == s.position + 4 + len as int
  {
    var len := LongStringLength(maxStringLen, str);
    var w := WriteLongString(s, maxStringLen, str);
    WriteLongStringWrites(s, maxStringLen, str);
    var t := Seek(w, s.position);
    ReadHeld(t, EncodeU32(len), str[..len]);
    DecodeEncodeU32(len);
    var l := ReadU32(t, 0);
    assert l.value == len;
    ReadHeld(l.stream, str[..len], []);
  }

  /** A recorded length above the bound sets `IOError`, consumes only the length and yields nothing. */
  lemma LongStringTooLong(s: Stream, maxStringLen: u32, n: u32)
    requires Valid(s) && Holds(s, s.position, EncodeU32(n)) && n > maxStringLen
    ensures var r := ReadLongString(s, maxStringLen);
      && !r.ok
      && r.stream.status == IOError
      && r.stream.position == s.position + 4
      && r.stream.data == s.data
  {
    ReadHeld(s, EncodeU32(n), []);
    var l := ReadU32(s, 0);
    assert EncodeU32(l.value) == EncodeU32(n);
    DecodeEncodeU32(l.value);
    DecodeEncodeU32(n);
  }

  // ---------------------------------------------------------------------------
  //   Lines
  // ---------------------------------------------------------------------------

  const CR: byte := 13
  const LF: byte := 10

  /** The bytes after the position. */
  function Rest(s: Stream): seq<byte>
    requires Valid(s)
  {
    s.data[s.position..]
  }

  /** Reading one byte takes the first byte of the rest. */
  lemma RestStep(s: Stream)
    requires Valid(s)
    ensures var b := ReadBytes(s, 1);
      b.ok ==> (b.value == [Rest(s)[0]] && Rest(b.stream) == Rest(s)[1..])
    ensures !ReadBytes(s, 1).ok ==> Rest(s) == []
  {
  }

  /** The bytes before the first LF (all of them when there is none). */
  function UpToLF(t: seq<byte>): (u: seq<byte>)
    ensures |u| <= |t| && u == t[..|u|] && LF !in u
    ensures |u| < |t| ==> t[|u|] == LF
  {
    if t == [] || t[0] == LF then [] else [t[0]] + UpToLF(t[1..])
  }

  /** How many bytes a line occupies: its bytes and the LF ending it, when there is one. */
  function LineExtent(t: seq<byte>): nat {
    if |UpToLF(t)| < |t| then |UpToLF(t)| + 1 else |t|
  }

  /** `t` without its CRs. */
  function DropCR(t: seq<byte>): (u: seq<byte>)
    ensures |u| <= |t| && CR !in u
    ensures forall b :: b in u ==> b in t
  {
    if t == [] then [] else (if t[0] == CR then [] else [t[0]]) + DropCR(t[1..])
  }

  /** At most the first `limit` bytes of `c`. */
  function Truncate(c: seq<byte>, limit: nat): (u: seq<byte>)
    ensures |u| <= limit && |u| <= |c| && u == c[..|u|]
  {
    if |c| <= limit then c else c[..limit]
  }

  /**
    The text `readLine` stores from input `t` into a buffer of `limit + 1`
    bytes: the line before its LF, CRs removed, cut to `limit` bytes.
  */
  function LineText(t: seq<byte>, limit: nat): seq<byte> {
    Truncate(DropCR(UpToLF(t)), limit)
  }

  /** The first loop of `readLine`: skip CRs. `None` when a read fails or an LF comes first. */
  function SkipCRs(s: Stream): (r: (Option<byte>, Stream))
    requires Valid(s)
    ensures Valid(r.1) && r.1.data == s.data && s.position <= r.1.position
    decreases Remaining(s)
  {
    var b := ReadBytes(s, 1);
    if !b.ok || b.value[0] == LF then (None, b.stream)
    else if b.value[0] == CR then SkipCRs(b.stream)
    else (Some(b.value[0]), b.stream)
  }

  /**
    The second loop of `readLine`. `acc` is the buffer up to and including the
    cursor; `limit` is `bufferSize - 1`, where the loop stops and the byte
    under the cursor gives way to the NUL. A CR moves the cursor back, so the
    next byte overwrites it.
  */
  function LineLoop(s: Stream, acc: seq<byte>, limit: nat): (r: (seq<byte>, Stream))
    requires Valid(s) && 1 <= |acc| <= limit + 1
    ensures Valid(r.1) && r.1.data == s.data && s.position <= r.1.position
    decreases Remaining(s)
  {
    if |acc| - 1 == limit then (acc[..limit], s)
    else
      var b := ReadBytes(s, 1);
      if !b.ok || b.value[0] == LF then (acc, b.stream)
      else if b.value[0] == CR then LineLoop(b.stream, acc, limit)
      else LineLoop(b.stream, acc + b.value, limit)
  }

  /** `readLine(buffer, bufferSize)` (the non-OSX branch): the text stored before the NUL, and the stream. */
  function ReadLine(s: Stream, bufferSize: nat): (r: (seq<byte>, Stream))
    requires Valid(s) && bufferSize >= 1
    ensures Valid(r.1)
  {
    var first := SkipCRs(s);
    if first.0.None? then ([], first.1) else LineLoop(first.1, [first.0.value], bufferSize - 1)
  }

  /** A failed read or an LF ends the line. */
  lemma LineStepEnd(s: Stream)
    requires Valid(s)
    requires var b := ReadBytes(s, 1); !b.ok || b.value[0] == LF
    ensures UpToLF(Rest(s)) == []
    ensures ReadBytes(s, 1).stream.position == s.position + LineExtent(Rest(s))
  {
    RestStep(s);
  }

  /** A byte other than LF belongs to the line; it is kept unless it is a CR. */
  lemma LineStepByte(s: Stream)
    requires Valid(s)
    requires var b := ReadBytes(s, 1); b.ok && b.value[0] != LF
    ensures var b := ReadBytes(s, 1);
      && DropCR(UpToLF(Rest(s))) == (if b.value[0] == CR then [] else b.value) + DropCR(UpToLF(Rest(b.stream)))
      && LineExtent(Rest(s)) == 1 + LineExtent(Rest(b.stream))
  {
    RestStep(s);
    var b := ReadBytes(s, 1);
    assert UpToLF(Rest(s)) == b.value + UpToLF(Rest(b.stream));
    assert (b.value + UpToLF(Rest(b.stream)))[1..] == UpToLF(Rest(b.stream));
  }

  lemma SkipCRsSpec(s: Stream)
    requires Valid(s)
    ensures var r := SkipCRs(s);
      var c := DropCR(UpToLF(Rest(s)));
      && (r.0.None? ==> c == [] && r.1.position == s.position + LineExtent(Rest(s)))
      && (r.0.Some? ==> (c == [r.0.value] + DropCR(UpToLF(Rest(r.1)))
           && r.1.position - s.position + LineExtent(Rest(r.1)) == LineExtent(Rest(s))))
    decreases Remaining(s)
  {
    var b := ReadBytes(s, 1);
    if !b.ok || b.value[0] == LF {
      LineStepEnd(s);
    } else {
      LineStepByte(s);
      if b.value[0] == CR {
        SkipCRsSpec(b.stream);
      }
    }
  }

  lemma Associates(a: seq<byte>, b: seq<byte>, c: seq<byte>)
    ensures a + (b + c) == (a + b) + c
  {
  }

  lemma {:induction false} LineLoopSpec(s: Stream, acc: seq<byte>, limit: nat)
    requires Valid(s) && 1 <= |acc| <= limit + 1
    ensures var r := LineLoop(s, acc, limit);
      var total := acc + DropCR(UpToLF(Rest(s)));
      && r.0 == Truncate(total, limit)
      && (|total| <= limit ==> r.1.position == s.position + LineExtent(Rest(s)))
    decreases Remaining(s)
  {
    if |acc| - 1 == limit {
      var total := acc + DropCR(UpToLF(Rest(s)));
      assert total[..limit] == acc[..limit];
    } else {
      var b := ReadBytes(s, 1);
      if !b.ok || b.value[0] == LF {
        LineStepEnd(s);
      } else {
        LineStepByte(s);
        var kept: seq<byte> := if b.value[0] == CR then [] else b.value;
        var acc' := if b.value[0] == CR then acc else acc + b.value;
        assert acc' == acc + kept;
        LineLoopSpec(b.stream, acc', limit);
        Associates(acc, kept, DropCR(UpToLF(Rest(b.stream))));
      }
    }
  }

  /**
    `readLine` stores the line before the next LF with every CR removed, cut
    to `bufferSize - 1` bytes; so it holds no CR or LF. When the line fits it
    consumes the line and its LF.
  */
  lemma ReadLineSpec(s: Stream, bufferSize: nat)
    requires Valid(s) && bufferSize >= 1
    ensures var r := ReadLine(s, bufferSize);
      && r.0 == LineText(Rest(s), bufferSize - 1)
      && |r.0| <= bufferSize - 1 && CR !in r.0 && LF !in r.0
      && (|DropCR(UpToLF(Rest(s)))| <= bufferSize - 1 ==> r.1.position == s.position + LineExtent(Rest(s)))
  {
    ReadLineText(s, bufferSize);
    LineTextClean(Rest(s), bufferSize - 1);
  }

  lemma ReadLineText(s: Stream, bufferSize: nat)
    requires Valid(s) && bufferSize >= 1
    ensures var r := ReadLine(s, bufferSize);
      && r.0 == LineText(Rest(s), bufferSize - 1)
      && (|DropCR(UpToLF(Rest(s)))| <= bufferSize - 1 ==> r.1.position == s.position + LineExtent(Rest(s)))
  {
    var first := SkipCRs(s);
    var limit := bufferSize - 1;
    SkipCRsSpec(s);
    if first.0.None? {
      assert ReadLine(s, bufferSize) == ([], first.1);
    } else {
      var v := first.0.value;
      assert ReadLine(s, bufferSize) == LineLoop(first.1, [v], limit);
      LineLoopSpec(first.1, [v], limit);
    }
  }

  /** A line's text holds no CR or LF and fits its limit. */
  lemma LineTextClean(t: seq<byte>, limit: nat)
    ensures var u := LineText(t, limit);
      |u| <= limit && CR !in u && LF !in u
  {
    var u := LineText(t, limit);
    var c := DropCR(UpToLF(t));
    forall b | b in u
      ensures b in c
    {
      var i :| 0 <= i < |u| && u[i] == b;
      assert c[i] == b;
    }
  }

  /** `writeLine(buffer)`: the string's bytes, then CR LF. */
  function WriteLine(s: Stream, line: seq<byte>): (r: Stream)
    requires Valid(s)
    ensures Valid(r)
  {
    WriteBytes(WriteBytes(s, line[..Strlen(line)]).stream, [CR, LF]).stream
  }

  /** A line without CR or LF that fits the buffer reads back as written, and the read moves past its CR LF. */
  lemma LineRoundTrip(s: Stream, line: seq<byte>, bufferSize: nat)
    requires Valid(s) && bufferSize >= 1
    requires var t := line[..Strlen(line)];
      CR !in t && LF !in t && |t| <= bufferSize - 1 && s.position + |t| + 2 <= s.capacity
    ensures var t := line[..Strlen(line)];
      var r := ReadLine(Seek(WriteLine(s, line), s.position), bufferSize);
      r.0 == t && r.1.position == s.position + |t| + 2
  {
    var t := line[..Strlen(line)];
    var w1 := WriteBytes(s, t);
    var w := WriteLine(s, line);
    WriteKeeps(w1.stream, [CR, LF], s.position, t);
    HoldsConcat(w, s.position, t, [CR, LF]);
    var r := Seek(w, s.position);
    var rest := Rest(r);
    assert rest[..|t| + 2] == t + [CR, LF];
    UpToLFOfLine(t, rest);
    DropCROfLine(t);
    ReadLineSpec(r, bufferSize);
  }

  lemma {:induction false} UpToLFOfLine(t: seq<byte>, rest: seq<byte>)
    requires LF !in t && |t| + 2 <= |rest| && rest[..|t| + 2] == t + [CR, LF]
    ensures UpToLF(rest) == t + [CR] && LineExtent(rest) == |t| + 2
  {
    if t != [] {
      assert rest[0] == t[0];
      assert rest[1..][..|t[1..]| + 2] == t[1..] + [CR, LF];
      UpToLFOfLine(t[1..], rest[1..]);
      assert t + [CR] == [t[0]] + (t[1..] + [CR]);
    } else {
      assert rest[0] == CR && rest[1] == LF;
      assert UpToLF(rest[1..]) == [];
    }
  }

  lemma {:induction false} DropCROfLine(t: seq<byte>)
    requires CR !in t
    ensures DropCR(t + [CR]) == t
  {
    if t == [] {
      assert DropCR([CR]) == [] + DropCR([]);
    } else {
      DropCROfLine(t[1..]);
      assert (t + [CR])[1..] == t[1..] + [CR];
      assert t == [t[0]] + t[1..];
    }
  }

  // ---------------------------------------------------------------------------
  //   Colours and matrices
  // ---------------------------------------------------------------------------

  /** `ColorI`: four 8-bit channels. */
  datatype ColorI = ColorI(red: byte, green: byte, blue: byte, alpha: byte)

  function Channels(c: ColorI): seq<byte> {
    [c.red, c.green, c.blue, c.alpha]
  }

  /** `write(const ColorI&)`: red, green, blue, alpha; true when any channel was written. */
  function WriteColorI(s: Stream, c: ColorI): (w: Wrote)
    requires Valid(s)
    ensures Valid(w.stream)
    ensures w.ok <==> s.position + 1 <= s.capacity
    ensures s.position + 4 <= s.capacity ==>
      Holds(w.stream, s.position, Channels(c)) && w.stream.position == s.position + 4
  {
    var w1 := WriteBytes(s, [c.red]);
    var w2 := WriteBytes(w1.stream, [c.green]);
    var w3 := WriteBytes(w2.stream, [c.blue]);
    var w4 := WriteBytes(w3.stream, [c.alpha]);
    ChannelsHeld(s, c);
    Wrote(w1.ok || w2.ok || w3.ok || w4.ok, w4.stream)
  }

  lemma ChannelsHeld(s: Stream, c: ColorI)
    requires Valid(s)
    ensures s.position + 4 <= s.capacity ==>
      var w1 := WriteBytes(s, [c.red]);
      var w2 := WriteBytes(w1.stream, [c.green]);
      var w3 := WriteBytes(w2.stream, [c.blue]);
      var w4 := WriteBytes(w3.stream, [c.alpha]);
      Holds(w4.stream, s.position, Channels(c))
  {
    if s.position + 4 <= s.capacity {
      ChannelsHeldFit(s, c);
    }
  }

  lemma ChannelsHeldFit(s: Stream, c: ColorI)
    requires Valid(s) && s.position + 4 <= s.capacity
    ensures var w1 := WriteBytes(s, [c.red]);
      var w2 := WriteBytes(w1.stream, [c.green]);
      var w3 := WriteBytes(w2.stream, [c.blue]);
      var w4 := WriteBytes(w3.stream, [c.alpha]);
      Holds(w4.stream, s.position, Channels(c))
  {
    var p := s.position;
    var w1 := WriteBytes(s, [c.red]);
    var w2 := WriteBytes(w1.stream, [c.green]);
    var w3 := WriteBytes(w2.stream, [c.blue]);
    var w4 := WriteBytes(w3.stream, [c.alpha]);
    WriteKeeps(w1.stream, [c.green], p, [c.red]);
    HoldsConcat(w2.stream, p, [c.red], [c.green]);
    WriteKeeps(w2.stream, [c.blue], p, [c.red, c.green]);
    HoldsConcat(w3.stream, p, [c.red, c.green], [c.blue]);
    WriteKeeps(w3.stream, [c.alpha], p, [c.red, c.green, c.blue]);
    HoldsConcat(w4.stream, p, [c.red, c.green, c.blue], [c.alpha]);
  }

  /** `read(&U8)`; a failed read leaves the destination at `prior`. */
  function ReadU8(s: Stream, prior: byte): (r: Read<byte>)
    requires Valid(s)
    ensures Valid(r.stream) && r.stream.data == s.data
    ensures r.ok <==> 1 <= Remaining(s)
    ensures r.value == if r.ok then s.data[s.position] else prior
    ensures r.stream.position == if r.ok then s.position + 1 else s.position
  {
    var b := ReadBytes(s, 1);
    Read(b.ok, if b.ok then b.value[0] else prior, b.stream)
  }

  /**
    `read(ColorI*)`: red, green, blue, alpha. Channel `k` of the colour read is
    the `k`-th byte after the position when there is one and keeps its prior
    value otherwise; the read reports success when any channel was read, that
    is when at least one byte remains.
  */
  function ReadColorI(s: Stream, prior: ColorI): (r: Read<ColorI>)
    requires Valid(s)
    ensures Valid(r.stream)
    ensures r.ok <==> Remaining(s) >= 1
    ensures forall k :: 0 <= k < 4 ==>
      Channels(r.value)[k] == if k < Remaining(s) then s.data[s.position + k] else Channels(prior)[k]
    ensures r.stream.position == s.position + (if Remaining(s) < 4 then Remaining(s) else 4)
  {
    var r1 := ReadU8(s, prior.red);
    var r2 := ReadU8(r1.stream, prior.green);
    var r3 := ReadU8(r2.stream, prior.blue);
    var r4 := ReadU8(r3.stream, prior.alpha);
    Read(r1.ok || r2.ok || r3.ok || r4.ok, ColorI(r1.value, r2.value, r3.value, r4.value), r4.stream)
  }

  /** A colour written where it fits reads back unchanged, whatever the destination held. */
  lemma ColorIRoundTrip(s: Stream, c: ColorI, prior: ColorI)
    requires Valid(s) && s.position + 4 <= s.capacity
    ensures var w := WriteColorI(s, c);
      var r := ReadColorI(Seek(w.stream, s.position), prior);
      w.ok && r.ok && r.value == c && r.stream.position == s.position + 4
  {
    var w := WriteColorI(s, c);
    var t := Seek(w.stream, s.position);
    var r := ReadColorI(t, prior);
    assert Channels(r.value) == Channels(c);
  }

  /** The byte image of a run of `F32`s, each as its four-byte pattern. */
  function EncodeF32s(xs: seq<F32>): (bs: seq<byte>)
    ensures |bs| == 4 * |xs|
  {
    if xs == [] then [] else EncodeU32(xs[0]) + EncodeF32s(xs[1..])
  }

  /** Writing each of `xs` in index order; true when any write succeeded. */
  function WriteF32s(s: Stream, xs: seq<F32>): (w: Wrote)
    requires Valid(s)
    ensures Valid(w.stream) && w.stream.capacity == s.capacity && s.position <= w.stream.position
    decreases |xs|
  {
    if xs == [] then Wrote(false, s)
    else
      var w := WriteU32(s, xs[0]);
      var rest := WriteF32s(w.stream, xs[1..]);
      Wrote(w.ok || rest.ok, rest.stream)
  }

  /** Reading `|prior|` values in index order; a value keeps its prior entry when its read fails. */
  function ReadF32s(s: Stream, prior: seq<F32>): (r: Read<seq<F32>>)
    requires Valid(s)
    ensures Valid(r.stream) && |r.value| == |prior|
    decreases |prior|
  {
    if prior == [] then Read(false, [], s)
    else
      var r := ReadU32(s, prior[0]);
      var rest := ReadF32s(r.stream, prior[1..]);
      Read(r.ok || rest.ok, [r.value] + rest.value, rest.stream)
  }

  /** When they all fit, the writes leave the values' image at the old position; any write succeeding means the first did. */
  lemma {:induction false} WriteF32sWrites(s: Stream, xs: seq<F32>)
    requires Valid(s)
    ensures var w := WriteF32s(s, xs);
      && (w.ok <==> xs != [] && s.position + 4 <= s.capacity)
      && (s.position + 4 * |xs| <= s.capacity ==>
            Holds(w.stream, s.position, EncodeF32s(xs)) && w.stream.position == s.position + 4 * |xs|)
    decreases |xs|
  {
    if xs != [] {
      var w := WriteU32(s, xs[0]);
      WriteF32sWrites(w.stream, xs[1..]);
      if !w.ok {
        WriteF32sFail(w.stream, xs[1..]);
      }
      if s.position + 4 * |xs| <= s.capacity {
        var rest := WriteF32s(w.stream, xs[1..]);
        WriteF32sKeeps(w.stream, xs[1..], s.position, EncodeU32(xs[0]));
        HoldsConcat(rest.stream, s.position, EncodeU32(xs[0]), EncodeF32s(xs[1..]));
      }
    }
  }

  /** Once a write has failed for want of room, so does every later one. */
  lemma {:induction false} WriteF32sFail(s: Stream, xs: seq<F32>)
    requires Valid(s) && s.position + 4 > s.capacity
    ensures !WriteF32s(s, xs).ok && WriteF32s(s, xs).stream.position == s.position
    decreases |xs|
  {
    if xs != [] {
      WriteF32sFail(WriteU32(s, xs[0]).stream, xs[1..]);
    }
  }

  /** The writes leave the bytes before the position where they were. */
  lemma {:induction false} WriteF32sKeeps(s: Stream, xs: seq<F32>, p: nat, x: seq<byte>)
    requires Valid(s) && Holds(s, p, x) && p + |x| <= s.position
    ensures Holds(WriteF32s(s, xs).stream, p, x)
    ensures s.position <= WriteF32s(s, xs).stream.position
    decreases |xs|
  {
    if xs != [] {
      var w := WriteU32(s, xs[0]);
      WriteKeeps(s, EncodeU32(xs[0]), p, x);
      WriteF32sKeeps(w.stream, xs[1..], p, x);
    }
  }

  /** Reading values from their image gives them back, whatever the destination held. */
  lemma {:induction false} ReadF32sHeld(s: Stream, xs: seq<F32>, prior: seq<F32>)
    requires Valid(s) && Holds(s, s.position, EncodeF32s(xs)) && |prior| == |xs|
    ensures var r := ReadF32s(s, prior);
      r.value == xs && r.stream.position == s.position + 4 * |xs| && (r.ok <==> xs != [])
    decreases |xs|
  {
    if xs != [] {
      ReadHeld(s, EncodeU32(xs[0]), EncodeF32s(xs[1..]));
      var r := ReadU32(s, prior[0]);
      assert EncodeU32(r.value) == EncodeU32(xs[0]);
      EncodeInjective(r.value, xs[0]);
      ReadF32sHeld(r.stream, xs[1..], prior[1..]);
      assert xs == [xs[0]] + xs[1..];
    }
  }

  /** `MatrixF`: sixteen floats, kept as bit patterns. */
  type MatrixF = m: seq<F32> | |m| == 16 witness seq(16, i => F32_ZERO)

  /** `writeMatrixF`: `m[0]` to `m[15]` in index order. */
  function WriteMatrixF(s: Stream, m: MatrixF): (w: Wrote)
    requires Valid(s)
    ensures Valid(w.stream) && s.position <= w.stream.position
  {
    WriteF32s(s, m)
  }

  /** `readMatrixF`: `m[0]` to `m[15]` in index order. */
  function ReadMatrixF(s: Stream, prior: MatrixF): (r: Read<MatrixF>)
    requires Valid(s)
  {
    var r := ReadF32s(s, prior);
    Read(r.ok, r.value, r.stream)
  }

  /** A matrix written where it fits reads back unchanged, and both report success. */
  lemma MatrixRoundTrip(s: Stream, m: MatrixF, prior: MatrixF)
    requires Valid(s) && s.position + 64 <= s.capacity
    ensures var w := WriteMatrixF(s, m);
      var r := ReadMatrixF(Seek(w.stream, s.position), prior);
      w.ok && r.ok && r.value == m && r.stream.position == s.position + 64
  {
    WriteF32sWrites(s, m);
    var w := WriteMatrixF(s, m);
    ReadF32sHeld(Seek(w.stream, s.position), m, prior);
  }

  // ---------------------------------------------------------------------------
  //   Stream to stream
  // ---------------------------------------------------------------------------

  /** `d` and `sc` are `dst` and `src` part way through a copy: what `src` has given up so far sits at `dst`'s old position. */
  predicate CopiedSoFar(dst: Stream, src: Stream, d: Stream, sc: Stream) {
    && Valid(d) && Valid(sc) && sc.data == src.data && sc.status == src.status
    && d.capacity == dst.capacity && src.position <= sc.position
    && d.position == dst.position + (sc.position - src.position)
    && Holds(d, dst.position, src.data[src.position..sc.position])
  }

  /** Moving the next chunk keeps a copy in progress. */
  lemma CopyChunk(dst: Stream, src: Stream, d: Stream, sc: Stream, n: nat)
    requires Valid(dst) && Valid(src) && CopiedSoFar(dst, src, d, sc) && n <= Remaining(sc)
    requires WriteBytes(d, ReadBytes(sc, n).value).ok
    ensures CopiedSoFar(dst, src, WriteBytes(d, ReadBytes(sc, n).value).stream, ReadBytes(sc, n).stream)
  {
    var data := src.data;
    var chunk := ReadBytes(sc, n).value;
    var before := data[src.position..sc.position];
    var w := WriteBytes(d, chunk).stream;
    assert chunk == data[sc.position..sc.position + n];
    assert Holds(w, dst.position, before) by {
      WriteKeeps(d, chunk, dst.position, before);
    }
    assert Holds(w, dst.position, before + chunk) by {
      HoldsConcat(w, dst.position, before, chunk);
    }
    assert before + chunk == data[src.position..sc.position + n];
  }

  /** A chunk that does not fit stops the copy: what was moved before it stays, and the whole rest could not have fit. */
  lemma CopyStepFails(dst: Stream, src: Stream, d: Stream, sc: Stream, n: nat)
    requires Valid(dst) && Valid(src) && CopiedSoFar(dst, src, d, sc) && n <= Remaining(sc)
    requires !WriteBytes(d, ReadBytes(sc, n).value).ok
    ensures var w := WriteBytes(d, ReadBytes(sc, n).value).stream;
      && Valid(w) && w.position == d.position && w.status == IOError
      && Holds(w, dst.position, src.data[src.position..sc.position])
      && dst.position + Remaining(src) > dst.capacity
  {
  }

  /** A copy that ran to the end of the source holds all of it. */
  lemma CopyDone(dst: Stream, src: Stream, d: Stream, sc: Stream)
    requires Valid(dst) && Valid(src) && CopiedSoFar(dst, src, d, sc) && Remaining(sc) == 0
    ensures Holds(d, dst.position, Rest(src)) && d.position == dst.position + Remaining(src)
    ensures dst.position + Remaining(src) <= dst.capacity
  {
    assert src.data[src.position..sc.position] == Rest(src);
  }

  /** The size of `copyFrom`'s transfer buffer. */
  const COPY_CHUNK: nat := 1024

  /**
    `dst.copyFrom(src)`: moves the bytes after `src`'s position to `dst` in
    chunks of at most `COPY_CHUNK`, stopping with false at the first failed
    transfer. A source already at `EOS` copies nothing and reports success.
  */
  method CopyFrom(dst: Stream, src: Stream) returns (ok: bool, dst': Stream, src': Stream)
    requires Valid(dst) && Valid(src)
    ensures Valid(dst') && Valid(src') && src'.data == src.data
    ensures ok <==> src.status == EOS || dst.position + Remaining(src) <= dst.capacity
    ensures src.status == EOS ==> dst' == dst && src' == src
    ensures ok && src.status != EOS ==>
      && Holds(dst', dst.position, Rest(src))
      && dst'.position == dst.position + Remaining(src)
      && src'.position == |src.data|
    ensures !ok ==>
      var n := dst'.position - dst.position;
      && 0 <= n < Remaining(src)
      && n % COPY_CHUNK == 0
      && Holds(dst', dst.position, src.data[src.position..src.position + n])
      && dst'.status == IOError
  {
    var numBytes := Remaining(src);
    dst' := dst;
    src' := src;
    while src'.status != EOS && numBytes > 0
      invariant CopiedSoFar(dst, src, dst', src')
      invariant numBytes == Remaining(src')
      invariant numBytes > 0 ==> (src'.position - src.position) % COPY_CHUNK == 0
      invariant src.status == EOS ==> dst' == dst && src' == src
      decreases numBytes
    {
      var numRead := if numBytes > COPY_CHUNK then COPY_CHUNK else numBytes;
      var r := ReadBytes(src', numRead);
      // `numRead` never exceeds what remains, so this read cannot fail.
      assert r.ok;
      var w := WriteBytes(dst', r.value);
      if !w.ok {
        CopyStepFails(dst, src, dst', src', numRead);
        ok := false;
        dst' := w.stream;
        src' := r.stream;
        return;
      }
      CopyChunk(dst, src, dst', src', numRead);
      dst' := w.stream;
      src' := r.stream;
      numBytes := numBytes - numRead;
    }
    ok := true;
    if src.status != EOS {
      CopyDone(dst, src, dst', src');
    }
  }
}
