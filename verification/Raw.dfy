/** Growable byte buffers. */
module Raw {
  import opened RawBytes

  class Buffer {
    var buf: array<byte>
    var capacity: nat
    var len: nat
    /** Everything appended since the last reset. */
    ghost var appended: seq<byte>

    ghost predicate Valid()
      reads this, buf
    {
      && buf.Length == capacity <= LIMIT
      && capacity % 128 == 0
      && len <= capacity
      && buf[..len] == appended
      && forall i :: len <= i < capacity ==> buf[i] == 0
    }

    constructor (size: nat)
      requires size <= LIMIT
      ensures Valid() && fresh(buf) && appended == [] && capacity == Rounded(size)
    {
      var n := Rounded(size);
      buf := new byte[n](_ => 0);
      capacity, len, appended := n, 0, [];
    }

    /**
      A reallocated block keeps its old bytes and has anything in the new ones; `memory` says whether
      there was room for it.
     */
    method Grow(n: nat, memory: bool) returns (code: int)
      requires Valid() && n <= LIMIT && (n > 0 || capacity > 0)
      modifies this
      ensures Valid() && len == old(len) && appended == old(appended) && (buf == old(buf) || fresh(buf))
      ensures code == if old(capacity) <= n && !memory then -1 else 0
      ensures capacity == if old(capacity) <= n && memory then Rounded(n) else old(capacity)
    {
      if n < capacity {
        return 0;
      }
      if !memory {
        return -1;
      }
      var size := Rounded(n);
      var tmp := new byte[size];
      var i := 0;
      while i < capacity
        invariant 0 <= i <= capacity && tmp[..i] == buf[..i]
        modifies tmp
      {
        tmp[i] := buf[i];
        i := i + 1;
      }
      i := len;
      while i < size
        invariant len <= i <= size && tmp[..len] == buf[..len]
        invariant forall j :: len <= j < i ==> tmp[j] == 0
        modifies tmp
      {
        tmp[i] := 0;
        i := i + 1;
      }
      buf, capacity := tmp, size;
      return 0;
    }

    method Add(bytes: seq<byte>, memory: bool) returns (code: int)
      requires Valid() && len + |bytes| <= LIMIT && (len + |bytes| > 0 || capacity > 0)
      modifies this, buf
      ensures Valid() && (buf == old(buf) || fresh(buf))
      ensures code == if old(capacity) <= old(len) + |bytes| && !memory then -1 else 0
      ensures appended == old(appended) + if code == 0 then bytes else []
    {
      code := Grow(len + |bytes|, memory);
      if code != 0 {
        return -1;
      }
      var i := 0;
      while i < |bytes|
        invariant 0 <= i <= |bytes| && buf[..len + i] == appended + bytes[..i]
        invariant forall j :: len + i <= j < capacity ==> buf[j] == 0
        modifies buf
      {
        buf[len + i] := bytes[i];
        Extended(buf, len + i, appended, bytes, i);
        i := i + 1;
      }
      assert bytes[..|bytes|] == bytes;
      len := len + |bytes|;
      appended := appended + bytes;
    }

    /** One byte at the end, where there is room for it. */
    method Push(b: byte)
      requires Valid() && len < capacity
      modifies this`len, this`appended, buf
      ensures Valid() && len == old(len) + 1 && appended == old(appended) + [b]
    {
      buf[len] := b;
      len := len + 1;
      appended := appended + [b];
    }

    method AddHex(table: seq<byte>, bytes: seq<byte>, memory: bool) returns (code: int)
      requires Valid() && |table| == 16 && len + |bytes| * 2 <= LIMIT && (len + |bytes| > 0 || capacity > 0)
      modifies this, buf
      ensures Valid() && (buf == old(buf) || fresh(buf))
      ensures code == if old(capacity) <= old(len) + |bytes| * 2 && !memory then -1 else 0
      ensures appended == old(appended) + if code == 0 then Hex(table, bytes) else []
    {
      hide Hex;
      code := Grow(len + |bytes| * 2, memory);
      if code != 0 {
        return -1;
      }
      var i := 0;
      ghost var before := appended;
      assert bytes[0..] == bytes && Hex(table, bytes[|bytes|..]) == [];
      while i < |bytes|
        invariant 0 <= i <= |bytes| && Valid() && (buf == old(buf) || fresh(buf))
        invariant len + (|bytes| - i) * 2 <= capacity
        invariant appended + Hex(table, bytes[i..]) == before + Hex(table, bytes)
      {
        var b := bytes[i];
        HexStep(table, bytes, i, appended);
        Push(table[b / 16]);
        Push(table[b % 16]);
        i := i + 1;
      }
    }

    method AddUint8(n: byte, memory: bool) returns (code: int)
      requires Valid() && len + 1 <= LIMIT
      modifies this, buf
      ensures Valid() && (buf == old(buf) || fresh(buf))
      ensures code == if old(capacity) <= old(len) + 1 && !memory then -1 else 0
      ensures appended == old(appended) + if code == 0 then [n] else []
    {
      code := Grow(len + 1, memory);
      if code != 0 {
        return -1;
      }
      Push(n);
    }

    /** The integers of 16, 24, 32 and 64 bits, as two, three, four and eight bytes. */
    method AddUint(size: nat, n: nat, memory: bool) returns (code: int)
      requires Valid() && size > 0 && len + size <= LIMIT
      modifies this, buf
      ensures Valid() && (buf == old(buf) || fresh(buf))
      ensures code == if old(capacity) <= old(len) + size && !memory then -1 else 0
      ensures appended == old(appended) + if code == 0 then LittleEndian(n, size) else []
    {
      hide LittleEndian;
      code := Grow(len + size, memory);
      if code != 0 {
        return -1;
      }
      var i, rest := 0, n;
      ghost var before := appended;
      while i < size
        invariant 0 <= i <= size && Valid() && (buf == old(buf) || fresh(buf))
        invariant len + (size - i) <= capacity
        invariant appended + LittleEndian(rest, size - i) == before + LittleEndian(n, size)
      {
        ByteStep(rest, size - i, appended);
        Push((rest % 256) as byte);
        rest := rest / 256;
        i := i + 1;
      }
    }

    method AddUint32Le(n: nat, memory: bool) returns (code: int)
      requires Valid() && len + 4 <= LIMIT
      modifies this, buf
      ensures Valid() && (buf == old(buf) || fresh(buf))
      ensures code == if old(capacity) <= old(len) + 4 && !memory then -1 else 0
      ensures appended == old(appended) + if code == 0 then Reversed(LittleEndian(n, 4)) else []
    {
      SwappedIsBigEndian(n);
      code := AddUint(4, SwapUint32(n), memory);
    }

    method Reset()
      requires Valid()
      modifies this, buf
      ensures Valid() && len == 0 && appended == [] && capacity == old(capacity) && buf == old(buf)
    {
      Clear(capacity);
      len, appended := 0, [];
    }

    method Clear(n: nat)
      requires n <= buf.Length
      modifies buf
      ensures forall i :: 0 <= i < n ==> buf[i] == 0
      ensures buf[n..] == old(buf[n..])
    {
      var i := 0;
      while i < n
        invariant 0 <= i <= n
        invariant forall j :: 0 <= j < i ==> buf[j] == 0
        invariant buf[n..] == old(buf[n..])
      {
        buf[i] := 0;
        i := i + 1;
      }
    }

    /** Keeps the size and forgets the bytes. */
    method Zero()
      requires Valid()
      modifies this`appended, buf
      ensures Valid() && len == old(len) && |appended| == len && forall i :: 0 <= i < len ==> appended[i] == 0
    {
      Clear(len);
      appended := buf[..len];
      assert forall i :: len <= i < capacity ==> buf[i] == buf[len..][i - len];
      assert forall i :: len <= i < capacity ==> old(buf[i]) == old(buf[len..])[i - len];
    }
  }

  lemma Extended(buf: array<byte>, n: nat, s: seq<byte>, bytes: seq<byte>, i: nat)
    requires n < buf.Length && i < |bytes| && buf[..n] == s + bytes[..i] && buf[n] == bytes[i]
    ensures buf[..n + 1] == s + bytes[..i + 1]
  {
    assert buf[..n + 1] == buf[..n] + [buf[n]];
    assert bytes[..i + 1] == bytes[..i] + [bytes[i]];
  }

  lemma ByteStep(n: nat, size: nat, s: seq<byte>)
    requires size > 0
    ensures s + LittleEndian(n, size) == s + [(n % 256) as byte] + LittleEndian(n / 256, size - 1)
  {
  }

  lemma HexStep(table: seq<byte>, bytes: seq<byte>, i: nat, s: seq<byte>)
    requires |table| == 16 && i < |bytes|
    ensures s + Hex(table, bytes[i..]) == s + [table[bytes[i] / 16]] + [table[bytes[i] % 16]]
        + Hex(table, bytes[i + 1..])
  {
    assert bytes[i..][1..] == bytes[i + 1..];
  }

  /** What was appended as an integer reads back as that integer, as far as its bytes reach. */
  lemma IntegerReadsBack(before: seq<byte>, n: nat, size: nat)
    ensures var s := before + LittleEndian(n, size);
            Decoded(s[|before|..]) == n % Pow256(size)
  {
    var s := before + LittleEndian(n, size);
    assert s[|before|..] == LittleEndian(n, size);
    DecodedLittleEndian(n, size);
  }
}
