/**
  The network buffer: one vector of bytes with a gap in front of the readable part
  and free space behind it.  To its users it is a byte queue.
*/
module Buffers {

  newtype Byte = x: int | 0 <= x < 256
  type Bytes = seq<Byte>

  datatype Option<T> = None | Some(value: T)

  const CHEAP_PREPEND := 8
  const INITIAL_SIZE := 1024
  const EXTRA_SIZE := 65536

  // ----- integers in network byte order -----

  function Pow256(n: nat): (r: nat)
    ensures r > 0 && (n > 0 ==> r % 2 == 0)
  {
    if n == 0 then 1 else 256 * Pow256(n - 1)
  }

  function BigEndian(x: nat, n: nat): (s: Bytes)
    ensures |s| == n
  {
    if n == 0 then [] else BigEndian(x / 256, n - 1) + [(x % 256) as Byte]
  }

  function FromBigEndian(s: Bytes): nat {
    if s == [] then 0 else FromBigEndian(s[..|s| - 1]) * 256 + s[|s| - 1] as nat
  }

  /** Two's complement in n bytes. */
  predicate Fits(x: int, n: nat) {
    n > 0 && -(Pow256(n) / 2) <= x < Pow256(n) / 2
  }

  function EncodeInt(x: int, n: nat): (s: Bytes)
    ensures |s| == n
  {
    BigEndian(x % Pow256(n), n)
  }

  function DecodeInt(s: Bytes): int {
    var u := FromBigEndian(s);
    if u >= Pow256(|s|) / 2 then u - Pow256(|s|) else u
  }

  lemma {:induction false} BigEndianRoundTrip(x: nat, n: nat)
    requires x < Pow256(n)
    ensures FromBigEndian(BigEndian(x, n)) == x
  {
    if n > 0 {
      BigEndianRoundTrip(x / 256, n - 1);
      assert BigEndian(x, n)[..n - 1] == BigEndian(x / 256, n - 1);
    }
  }

  lemma {:induction false} BigEndianInverse(s: Bytes)
    ensures FromBigEndian(s) < Pow256(|s|) && BigEndian(FromBigEndian(s), |s|) == s
  {
    if s != [] {
      var front, last := s[..|s| - 1], s[|s| - 1];
      BigEndianInverse(front);
      assert FromBigEndian(s) / 256 == FromBigEndian(front) && FromBigEndian(s) % 256 == last as nat;
      assert s == front + [last];
    }
  }

  /** The most significant byte comes first. */
  lemma {:induction false} BigEndianBytes(x: nat, n: nat, i: nat)
    requires i < n
    ensures BigEndian(x, n)[i] as nat == x / Pow256(n - 1 - i) % 256
  {
    if i < n - 1 {
      BigEndianBytes(x / 256, n - 1, i);
      DivDiv(x, Pow256(n - 2 - i));
    }
  }

  lemma DivDiv(x: nat, p: nat)
    requires p > 0
    ensures x / 256 / p == x / (256 * p)
  {
    var q := x / 256 / p;
    var r := x / 256 % p;
    assert x == 256 * (q * p + r) + x % 256 && 256 * r + x % 256 < 256 * p;
    assert x == q * (256 * p) + (256 * r + x % 256);
    Quotient(x, 256 * p, q, 256 * r + x % 256);
  }

  lemma Quotient(x: int, d: int, q: int, r: int)
    requires x == q * d + r && 0 <= r < d
    ensures x / d == q
  {
    var k := x / d - q;
    assert d * (x / d) + x % d == q * d + r;
    assert k * d == r - x % d;
    assert k >= 1 ==> k * d >= d;
    assert k <= -1 ==> k * d <= -d;
  }

  lemma ModNegative(x: int, p: int)
    requires 0 < p && -p < x < 0
    ensures x % p == x + p
  {
    assert x == p * (x / p) + x % p;
    Multiple(p, x / p);
  }

  lemma Multiple(p: int, q: int)
    requires p > 0
    ensures (q <= -2 ==> p * q <= -2 * p) && (q == -1 ==> p * q == -p) && (q >= 0 ==> p * q >= 0)
  {
    if q <= -2 {
      assert p * (-2 - q) >= 0;
    }
  }

  lemma ModSmall(x: int, p: int)
    requires 0 <= x < p
    ensures x % p == x
  {
  }

  lemma Unsigned(x: int, n: nat)
    requires Fits(x, n)
    ensures x % Pow256(n) == if x < 0 then x + Pow256(n) else x
  {
    if x < 0 {
      ModNegative(x, Pow256(n));
    } else {
      ModSmall(x, Pow256(n));
    }
  }

  /** Writing an integer in network order and reading it back gives it back, negative ones included. */
  lemma IntRoundTrip(x: int, n: nat)
    requires Fits(x, n)
    ensures DecodeInt(EncodeInt(x, n)) == x
  {
    hide BigEndian, FromBigEndian;
    BigEndianRoundTrip(x % Pow256(n), n);
    Unsigned(x, n);
  }

  /** Every n bytes are the encoding of exactly one integer. */
  lemma IntInverse(s: Bytes)
    requires s != []
    ensures Fits(DecodeInt(s), |s|) && EncodeInt(DecodeInt(s), |s|) == s
  {
    hide BigEndian, FromBigEndian;
    BigEndianInverse(s);
    Unsigned(DecodeInt(s), |s|);
  }

  /** The stream that arrived in these chunks. */
  function Concat(chunks: seq<Bytes>): Bytes {
    if chunks == [] then [] else chunks[0] + Concat(chunks[1..])
  }

  // ----- searching -----

  const CR: Byte := 13
  const LF: Byte := 10

  predicate CrlfAt(s: Bytes, i: nat) {
    i + 1 < |s| && s[i] == CR && s[i + 1] == LF
  }

  function FindCRLF(s: Bytes): (r: Option<nat>)
    ensures match r
            case Some(i) => CrlfAt(s, i) && forall j :: 0 <= j < i ==> !CrlfAt(s, j)
            case None => forall j :: 0 <= j < |s| ==> !CrlfAt(s, j)
  {
    FindFrom(s, 0)
  }

  function FindFrom(s: Bytes, i: nat): (r: Option<nat>)
    requires i <= |s|
    ensures match r
            case Some(k) => i <= k && CrlfAt(s, k) && forall j :: i <= j < k ==> !CrlfAt(s, j)
            case None => forall j :: i <= j < |s| ==> !CrlfAt(s, j)
    decreases |s| - i
  {
    if i == |s| then None
    else if CrlfAt(s, i) then Some(i)
    else FindFrom(s, i + 1)
  }

  /** More bytes never move a line break that was already found, even one split across two reads. */
  lemma FindCRLFStable(s: Bytes, t: Bytes)
    requires FindCRLF(s).Some?
    ensures FindCRLF(s + t) == FindCRLF(s)
  {
    var i := FindCRLF(s).value;
    assert CrlfAt(s + t, i);
    assert forall j :: 0 <= j < i ==> CrlfAt(s + t, j) == CrlfAt(s, j);
  }

  lemma Split(s: Bytes, i: nat, j: nat, k: nat)
    requires i <= j <= k <= |s|
    ensures s[i..k] == s[i..j] + s[j..k]
  {
  }

  class Buffer {
    var buffer: array<Byte>
    var readerIndex: nat
    var writerIndex: nat

    ghost predicate Valid()
      reads this
    {
      CHEAP_PREPEND <= buffer.Length && readerIndex <= writerIndex <= buffer.Length
    }

    /** The byte queue this buffer stands for. */
    function Contents(): (r: Bytes)
      reads this, buffer
      requires Valid()
      ensures |r| == ReadableBytes()
    {
      buffer[readerIndex..writerIndex]
    }

    function ReadableBytes(): nat
      reads this
      requires Valid()
    {
      writerIndex - readerIndex
    }

    function WritableBytes(): nat
      reads this
      requires Valid()
    {
      buffer.Length - writerIndex
    }

    function PrependableBytes(): nat
      reads this
    {
      readerIndex
    }

    constructor (initialSize: nat)
      ensures Valid() && fresh(buffer) && Contents() == []
      ensures WritableBytes() == initialSize && PrependableBytes() == CHEAP_PREPEND
    {
      buffer := new Byte[CHEAP_PREPEND + initialSize](_ => 0);
      readerIndex, writerIndex := CHEAP_PREPEND, CHEAP_PREPEND;
    }

    method Swap(rhs: Buffer)
      requires Valid() && rhs.Valid()
      modifies this, rhs
      ensures Valid() && rhs.Valid()
      ensures buffer == old(rhs.buffer) && rhs.buffer == old(buffer)
      ensures Contents() == old(rhs.Contents()) && rhs.Contents() == old(Contents())
      ensures WritableBytes() == old(rhs.WritableBytes())
    {
      buffer, rhs.buffer := rhs.buffer, buffer;
      readerIndex, rhs.readerIndex := rhs.readerIndex, readerIndex;
      writerIndex, rhs.writerIndex := rhs.writerIndex, writerIndex;
    }

    method Retrieve(len: nat)
      requires Valid() && len <= ReadableBytes()
      modifies `readerIndex, `writerIndex
      ensures Valid() && Contents() == old(Contents())[len..]
      ensures Contents() == [] ==> PrependableBytes() == CHEAP_PREPEND
    {
      if len < ReadableBytes() {
        readerIndex := readerIndex + len;
      } else {
        RetrieveAll();
      }
    }

    method RetrieveAll()
      requires Valid()
      modifies `readerIndex, `writerIndex
      ensures Valid() && Contents() == [] && PrependableBytes() == CHEAP_PREPEND
    {
      readerIndex, writerIndex := CHEAP_PREPEND, CHEAP_PREPEND;
    }

    method RetrieveAsString(len: nat) returns (result: Bytes)
      requires Valid() && len <= ReadableBytes()
      modifies `readerIndex, `writerIndex
      ensures Valid() && result + Contents() == old(Contents()) && |result| == len
    {
      result := Contents()[..len];
      Retrieve(len);
    }

    /** Takes back the last bytes appended. */
    method Unwrite(len: nat)
      requires Valid() && len <= ReadableBytes()
      modifies `writerIndex
      ensures Valid() && Contents() == old(Contents())[..old(ReadableBytes()) - len]
    {
      ghost var before := Contents();
      writerIndex := writerIndex - len;
      forall i | 0 <= i < ReadableBytes() ensures Contents()[i] == before[i] {
        assert before[i] == buffer[readerIndex + i];
      }
    }

    /** vector::resize to a larger size: the bytes there are keep their places. */
    method Resize(size: nat)
      requires Valid() && size >= buffer.Length
      modifies `buffer
      ensures Valid() && fresh(buffer) && buffer.Length == size && Contents() == old(Contents())
    {
      var bigger := new Byte[size](_ => 0);
      var i := 0;
      while i < buffer.Length
        invariant 0 <= i <= buffer.Length && buffer == old(buffer)
        invariant forall k :: 0 <= k < i ==> bigger[k] == buffer[k]
      {
        bigger[i] := buffer[i];
        i := i + 1;
      }
      assert bigger[readerIndex..writerIndex] == buffer[readerIndex..writerIndex];
      buffer := bigger;
    }

    /** Slides the readable bytes down to the cheap-prepend mark; the copy runs upwards, so overlap is harmless. */
    method MoveToFront()
      requires Valid() && CHEAP_PREPEND < readerIndex
      modifies this, buffer
      ensures Valid() && buffer == old(buffer) && Contents() == old(Contents())
      ensures readerIndex == CHEAP_PREPEND
    {
      var readable := ReadableBytes();
      ghost var before := Contents();
      var k := 0;
      while k < readable
        invariant 0 <= k <= readable
        invariant Valid() && readerIndex == old(readerIndex) && writerIndex == old(writerIndex) && buffer == old(buffer)
        invariant buffer[CHEAP_PREPEND..CHEAP_PREPEND + k] == before[..k]
        invariant buffer[readerIndex + k..writerIndex] == before[k..]
      {
        assert buffer[readerIndex + k] == before[k];
        ghost var rest := buffer[readerIndex + k + 1..writerIndex];
        buffer[CHEAP_PREPEND + k] := buffer[readerIndex + k];
        assert buffer[CHEAP_PREPEND..CHEAP_PREPEND + k + 1] == before[..k] + [before[k]];
        assert buffer[readerIndex + k + 1..writerIndex] == rest;
        k := k + 1;
      }
      readerIndex := CHEAP_PREPEND;
      writerIndex := readerIndex + readable;
    }

    /**
      The caller's guard (too little room behind) and this one's failure (enough room in all) put the
      reader past the mark.
    */
    method MakeSpace(len: nat)
      requires Valid() && WritableBytes() < len
      modifies this, buffer
      ensures Valid() && (buffer == old(buffer) || fresh(buffer)) && Contents() == old(Contents())
      ensures WritableBytes() >= len
      ensures if old(WritableBytes() + PrependableBytes()) < len + CHEAP_PREPEND
              then fresh(buffer) && WritableBytes() == len && readerIndex == old(readerIndex)
              else buffer == old(buffer) && readerIndex == CHEAP_PREPEND
    {
      if WritableBytes() + PrependableBytes() < len + CHEAP_PREPEND {
        Resize(writerIndex + len);
      } else {
        assert CHEAP_PREPEND < readerIndex;
        MoveToFront();
      }
    }

    method EnsureWritableBytes(len: nat)
      requires Valid()
      modifies this, buffer
      ensures Valid() && (buffer == old(buffer) || fresh(buffer)) && Contents() == old(Contents())
      ensures WritableBytes() >= len
      ensures old(WritableBytes()) >= len ==>
        buffer == old(buffer) && readerIndex == old(readerIndex)
        && writerIndex == old(writerIndex)
      ensures PrependableBytes() == old(PrependableBytes()) || PrependableBytes() == CHEAP_PREPEND
    {
      if WritableBytes() < len {
        MakeSpace(len);
      }
    }

    /** Copies bytes to a place in the vector. */
    method Put(at: nat, data: Bytes)
      requires at + |data| <= buffer.Length
      modifies buffer
      ensures buffer[at..at + |data|] == data
      ensures forall i :: 0 <= i < buffer.Length && !(at <= i < at + |data|) ==> buffer[i] == old(buffer[i])
    {
      forall i | 0 <= i < |data| {
        buffer[at + i] := data[i];
      }
    }

    /** Copies to where writing begins, the room being there, and counts it as written. */
    method Fill(data: Bytes)
      requires Valid() && |data| <= WritableBytes()
      modifies `writerIndex, buffer
      ensures Valid() && Contents() == old(Contents()) + data
      ensures WritableBytes() == old(WritableBytes()) - |data|
    {
      ghost var before := Contents();
      Put(writerIndex, data);
      assert buffer[readerIndex..writerIndex] == before;
      Split(buffer[..], readerIndex, writerIndex, writerIndex + |data|);
      writerIndex := writerIndex + |data|;
    }

    method Append(data: Bytes)
      requires Valid()
      modifies this, buffer
      ensures Valid() && (buffer == old(buffer) || fresh(buffer)) && Contents() == old(Contents()) + data
      ensures old(WritableBytes()) >= |data| ==>
        buffer == old(buffer)
        && WritableBytes() == old(WritableBytes()) - |data|
      ensures PrependableBytes() == old(PrependableBytes()) || PrependableBytes() == CHEAP_PREPEND
    {
      EnsureWritableBytes(|data|);
      Fill(data);
    }

    /** Uses the gap in front; how much there is is the caller's concern. */
    method Prepend(data: Bytes)
      requires Valid() && |data| <= PrependableBytes()
      modifies this, buffer
      ensures Valid() && buffer == old(buffer) && Contents() == data + old(Contents())
    {
      ghost var before := Contents();
      Put(readerIndex - |data|, data);
      assert buffer[readerIndex..writerIndex] == before;
      Split(buffer[..], readerIndex - |data|, readerIndex, writerIndex);
      readerIndex := readerIndex - |data|;
    }

    method AppendInt(x: int, n: nat)
      requires Valid() && Fits(x, n)
      modifies this, buffer
      ensures Valid() && (buffer == old(buffer) || fresh(buffer)) && Contents() == old(Contents()) + EncodeInt(x, n)
      ensures PrependableBytes() == old(PrependableBytes()) || PrependableBytes() == CHEAP_PREPEND
    {
      Append(EncodeInt(x, n));
    }

    method PrependInt(x: int, n: nat)
      requires Valid() && Fits(x, n) && n <= PrependableBytes()
      modifies this, buffer
      ensures Valid() && buffer == old(buffer) && Contents() == EncodeInt(x, n) + old(Contents())
    {
      Prepend(EncodeInt(x, n));
    }

    function PeekInt(n: nat): (x: int)
      reads this, buffer
      requires Valid() && 0 < n <= ReadableBytes()
      ensures Fits(x, n) && EncodeInt(x, n) == Contents()[..n]
    {
      IntInverse(Contents()[..n]);
      DecodeInt(Contents()[..n])
    }

    /** Whatever integer is in front comes back, and only its bytes are consumed. */
    method ReadInt(n: nat) returns (x: int)
      requires Valid() && 0 < n <= ReadableBytes()
      modifies `readerIndex, `writerIndex
      ensures Valid() && Fits(x, n) && EncodeInt(x, n) + Contents() == old(Contents())
    {
      x := PeekInt(n);
      Retrieve(n);
    }

    method Shrink(reserve: nat)
      requires Valid()
      modifies this
      ensures Valid() && fresh(buffer) && Contents() == old(Contents()) && WritableBytes() >= reserve
    {
      var other := new Buffer(INITIAL_SIZE);
      other.EnsureWritableBytes(ReadableBytes() + reserve);
      other.Append(Contents());
      Swap(other);
    }

    /** What one readv may deliver: at least 64 KiB, the overflow area helping out while there is less room. */
    function ReadCapacity(): (n: nat)
      reads this
      requires Valid()
      ensures n >= 65536 && (n == WritableBytes() || n == WritableBytes() + 65536 < 2 * 65536)
    {
      WritableBytes() + if WritableBytes() < EXTRA_SIZE then EXTRA_SIZE else 0
    }

    /**
      One scatter read; n and data are the kernel's answer, the data laid out over the
      free space and then the overflow area.
    */
    method ReadFd(n: int, data: Bytes, errno: int) returns (savedErrno: Option<int>)
      requires Valid() && (n >= 0 ==> |data| == n <= ReadCapacity())
      modifies this, buffer
      ensures Valid() && (buffer == old(buffer) || fresh(buffer))
      ensures Contents() == old(Contents()) + if n >= 0 then data else []
      ensures savedErrno == if n < 0 then Some(errno) else None
    {
      savedErrno := None;
      var writable := WritableBytes();
      if n < 0 {
        savedErrno := Some(errno);
      } else if n <= writable {
        Fill(data);
      } else {
        var extrabuf := data[writable..];
        Fill(data[..writable]);
        assert writerIndex == buffer.Length;
        Append(extrabuf);
        assert data == data[..writable] + extrabuf;
      }
    }
  }
}
