/**
 * The write cache of a file: small writes gather in a buffer, which goes out
 * whole before a write that does not fit and once more when the file closes.
 */
module MtWriteCache {

  const CACHE_SIZE: nat := 4096

  type Bytes = seq<bv8>

  // ------------------------------------------------------------------ as values

  /** What has reached the file, and what waits in the cache. */
  datatype State = State(disk: Bytes, cached: Bytes)

  /** A write in cache mode. */
  function Write(s: State, buffer: Bytes): State {
    if CACHE_SIZE - |s.cached| >= |buffer| then State(s.disk, s.cached + buffer)
    else if CACHE_SIZE >= |buffer| then State(s.disk + s.cached, buffer)
    else State(s.disk + s.cached + buffer, [])
  }

  function WriteAll(s: State, buffers: seq<Bytes>): State
    decreases buffers
  {
    if buffers == [] then s else WriteAll(Write(s, buffers[0]), buffers[1..])
  }

  /** The flush at close. */
  function Closed(s: State): Bytes {
    s.disk + s.cached
  }

  function Concat(buffers: seq<Bytes>): Bytes {
    if buffers == [] then [] else buffers[0] + Concat(buffers[1..])
  }

  /** Nothing is lost, repeated or reordered: file and cache together are what was written, and the cache fits. */
  lemma {:induction false} NothingLost(s: State, buffers: seq<Bytes>)
    requires |s.cached| <= CACHE_SIZE
    ensures var t := WriteAll(s, buffers);
            t.disk + t.cached == s.disk + s.cached + Concat(buffers) && |t.cached| <= CACHE_SIZE
    decreases buffers
  {
    if buffers != [] {
      NothingLost(Write(s, buffers[0]), buffers[1..]);
      WriteAdds(s, buffers[0]);
      Regroup(s.disk + s.cached, buffers[0], Concat(buffers[1..]));
    }
  }

  lemma WriteAdds(s: State, b: Bytes)
    ensures Write(s, b).disk + Write(s, b).cached == s.disk + s.cached + b
  {
  }

  lemma Regroup(a: Bytes, b: Bytes, c: Bytes)
    ensures a + b + c == a + (b + c)
  {
  }

  /** Nothing reaches the file while the cache has room for it... */
  lemma {:induction false} SmallWritesGather(s: State, buffers: seq<Bytes>)
    requires |s.cached| + |Concat(buffers)| <= 4096
    ensures WriteAll(s, buffers) == State(s.disk, s.cached + Concat(buffers))
    decreases buffers
  {
    if buffers == [] {
      assert s.cached + [] == s.cached;
    } else {
      Regroup(s.cached, buffers[0], Concat(buffers[1..]));
      SmallWritesGather(Write(s, buffers[0]), buffers[1..]);
    }
  }

  /** ...and when it has not, all that waited does; the new buffer waits in its place if it can. */
  lemma WriteOverflows(s: State, b: Bytes)
    requires |s.cached| <= 4096 && |s.cached| + |b| > 4096
    ensures Write(s, b) == if |b| <= 4096 then State(s.disk + s.cached, b) else State(s.disk + s.cached + b, [])
  {
  }

  /** After the flush at close the file is the concatenation of all buffers. */
  lemma CloseCompletes(buffers: seq<Bytes>)
    ensures Closed(WriteAll(State([], []), buffers)) == Concat(buffers)
  {
    NothingLost(State([], []), buffers);
    assert [] + [] + Concat(buffers) == Concat(buffers);
  }

  // ------------------------------------------------------------------ as it runs

  class File {
    var disk: Bytes
    var caching: bool
    var wrCacheBuf: array?<bv8>
    var wrCacheLen: nat
    var closing: bool

    ghost predicate Valid()
      reads this, wrCacheBuf
    {
      && (wrCacheBuf != null ==> wrCacheBuf.Length == CACHE_SIZE && wrCacheLen <= CACHE_SIZE)
      && (wrCacheBuf == null ==> wrCacheLen == 0)
    }

    /** The cache's contents, whether or not they have been written out. */
    ghost function Buffered(): (b: Bytes)
      requires Valid()
      ensures |b| == wrCacheLen
      reads this, wrCacheBuf
    {
      if wrCacheBuf == null then [] else wrCacheBuf[..wrCacheLen]
    }

    /** What a reader of the file would see once the cache is out. */
    ghost function Log(): Bytes
      requires Valid()
      reads this, wrCacheBuf
    {
      disk + if caching then Buffered() else []
    }

    constructor (caching: bool)
      ensures Valid() && disk == [] && this.caching == caching && wrCacheBuf == null && Log() == [] && !closing
    {
      disk := [];
      this.caching := caching;
      wrCacheBuf := null;
      wrCacheLen := 0;
      closing := false;
    }

    /** The system call: it takes a prefix of its own choosing, but not an empty one. */
    method RawWrite(buffer: Bytes) returns (n: nat)
      modifies this`disk
      ensures n <= |buffer| && (buffer != [] ==> n > 0)
      ensures disk == old(disk) + buffer[..n]
    {
      var k :| 0 <= k <= |buffer| && (buffer != [] ==> k > 0);
      n := k;
      disk := disk + buffer[..n];
    }

    /** Writes until all of the buffer is out. */
    method WritePkt(buffer: Bytes)
      modifies this`disk
      ensures disk == old(disk) + buffer
    {
      var cnt := 0;
      while cnt < |buffer|
        invariant 0 <= cnt <= |buffer|
        invariant disk == old(disk) + buffer[..cnt]
      {
        var n := RawWrite(buffer[cnt..]);
        assert buffer[..cnt] + buffer[cnt..][..n] == buffer[..cnt + n];
        cnt := cnt + n;
      }
      assert buffer[..cnt] == buffer;
    }

    /** Copies a buffer to the end of the cache. */
    method Append(buffer: Bytes)
      requires Valid() && wrCacheBuf != null && wrCacheLen + |buffer| <= CACHE_SIZE
      modifies this`wrCacheLen, wrCacheBuf
      ensures Valid() && Buffered() == old(Buffered()) + buffer
    {
      var i := 0;
      while i < |buffer|
        invariant 0 <= i <= |buffer| && wrCacheLen == old(wrCacheLen)
        invariant wrCacheBuf[..wrCacheLen] == old(Buffered())
        invariant wrCacheBuf[wrCacheLen..wrCacheLen + i] == buffer[..i]
      {
        wrCacheBuf[wrCacheLen + i] := buffer[i];
        i := i + 1;
      }
      assert wrCacheBuf[..wrCacheLen + i] == wrCacheBuf[..wrCacheLen] + wrCacheBuf[wrCacheLen..wrCacheLen + i];
      assert buffer[..i] == buffer;
      wrCacheLen := wrCacheLen + |buffer|;
    }

    method FlushFirst()
      requires Valid() && wrCacheBuf != null
      modifies this`disk, this`wrCacheLen
      ensures Valid() && disk == old(disk + Buffered()) && Buffered() == []
    {
      if wrCacheLen > 0 {
        WritePkt(wrCacheBuf[..wrCacheLen]);
        wrCacheLen := 0;
      }
    }

    /** A write in cache mode takes the whole buffer. */
    method WriteCached(buffer: Bytes)
      requires Valid() && caching && wrCacheBuf != null
      modifies this`disk, this`wrCacheLen, wrCacheBuf
      ensures Valid()
      ensures State(disk, Buffered()) == Write(old(State(disk, Buffered())), buffer)
    {
      if CACHE_SIZE - wrCacheLen >= |buffer| {
        Append(buffer);
        return;
      }
      FlushFirst();
      if CACHE_SIZE - wrCacheLen >= |buffer| {
        Append(buffer);
        assert [] + buffer == buffer;
        return;
      }
      WritePkt(buffer);
    }

    method WriteBytes(buffer: Bytes) returns (n: int)
      requires Valid()
      modifies this, wrCacheBuf
      ensures Valid() && caching == old(caching) && closing == old(closing)
      ensures wrCacheBuf != old(wrCacheBuf) ==> fresh(wrCacheBuf)
      ensures if old(closing) then n == -1 && Log() == old(Log())
              else 0 <= n <= |buffer| && (buffer != [] ==> n > 0) && Log() == old(Log()) + buffer[..n]
      ensures !old(closing) && caching ==> n == |buffer| && State(disk, Buffered()) == Write(old(State(disk, Buffered())), buffer)
    {
      if closing {
        return -1;
      }
      if caching {
        if wrCacheBuf == null {
          wrCacheBuf := new bv8[CACHE_SIZE];
          wrCacheLen := 0;
        }
        WriteAdds(State(disk, Buffered()), buffer);
        assert buffer[..|buffer|] == buffer;
        WriteCached(buffer);
        return |buffer|;
      }
      n := RawWrite(buffer);
    }

    /** Turns the cache off: what it holds goes out, but its length stays. */
    method UnsetCaching()
      requires Valid()
      modifies this`disk, this`caching
      ensures Valid() && !caching && Log() == old(Log()) && disk == Log()
      ensures wrCacheBuf == old(wrCacheBuf) && wrCacheLen == old(wrCacheLen)
    {
      var was := caching;
      caching := false;
      if was && wrCacheBuf != null && wrCacheLen > 0 {
        WritePkt(wrCacheBuf[..wrCacheLen]);
      }
    }

    /** Turns the cache back on: what it still holds counts again exactly when that is nothing. */
    method SetCaching()
      requires Valid() && !caching
      modifies this`caching
      ensures Valid() && caching && disk == old(disk)
      ensures Log() == old(Log()) <==> wrCacheLen == 0
    {
      caching := true;
      assert |Log()| == |disk| + wrCacheLen;
    }

    /** Closing flushes once; a second close changes nothing. */
    method Close() returns (r: int)
      requires Valid()
      modifies this`disk, this`caching, this`closing
      ensures Valid() && closing && r == if old(closing) then -1 else 0
      ensures if old(closing) then disk == old(disk) else disk == old(Log())
    {
      if closing {
        return -1;
      }
      UnsetCaching();
      closing := true;
      r := 0;
    }
  }

  /** A file written, closed once, and holding everything; and one whose cache was turned off and on again, holding its data twice. */
  method CacheTwice(b: Bytes) returns (once: Bytes, twice: Bytes)
    requires 0 < |b| <= CACHE_SIZE
    ensures once == b && twice == b + b
  {
    var f := new File(true);
    var n := f.WriteBytes(b);
    assert [] + b == b;
    f.UnsetCaching();
    once := f.disk;
    f.SetCaching();
    var r := f.Close();
    twice := f.disk;
  }
}
