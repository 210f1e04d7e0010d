/**
 Two RAM disks: one keeps its sectors as they are, the other encrypts them block by block.
 Seen through its requests, the encrypted disk is the plain one.
 */
module Ramdisk {
  import opened Arithmetic

  type Bytes = seq<bv8>

  /** A block cipher under a fixed key: two functions on blocks of size bytes. */
  datatype Cipher = Cipher(size: int, encrypt: Bytes -> Bytes, decrypt: Bytes -> Bytes)

  ghost predicate Keeps(f: Bytes -> Bytes, size: int) {
    forall x :: |x| == size ==> |f(x)| == size
  }

  ghost predicate Good(c: Cipher) {
    && 1 <= c.size && Keeps(c.encrypt, c.size) && Keeps(c.decrypt, c.size)
    && forall x :: |x| == c.size ==> c.decrypt(c.encrypt(x)) == x
  }

  // ---------------------------------------------------------------- block by block

  /** The function applied to each whole block. */
  ghost function EachBlock(f: Bytes -> Bytes, size: int, x: Bytes): Bytes
    requires 1 <= size
    decreases |x|
  {
    if |x| < size then x else f(x[..size]) + EachBlock(f, size, x[size..])
  }

  ghost function Encrypted(c: Cipher, x: Bytes): (y: Bytes)
    requires Good(c)
    ensures |y| == |x|
  {
    SameLength(c.encrypt, c.size, x);
    EachBlock(c.encrypt, c.size, x)
  }

  ghost function Decrypted(c: Cipher, x: Bytes): (y: Bytes)
    requires Good(c)
    ensures |y| == |x|
  {
    SameLength(c.decrypt, c.size, x);
    EachBlock(c.decrypt, c.size, x)
  }

  lemma {:induction false} SameLength(f: Bytes -> Bytes, size: int, x: Bytes)
    requires 1 <= size && Keeps(f, size)
    ensures |EachBlock(f, size, x)| == |x|
    decreases |x|
  {
    if |x| >= size {
      SameLength(f, size, x[size..]);
    }
  }

  /** Whole blocks in front can be treated on their own. */
  lemma {:induction false} BlocksConcat(f: Bytes -> Bytes, size: int, x: Bytes, y: Bytes, k: int)
    requires 1 <= size && Keeps(f, size) && 0 <= k && |x| == Times(k, size)
    ensures EachBlock(f, size, x + y) == EachBlock(f, size, x) + EachBlock(f, size, y)
    decreases k
  {
    hide Times;
    TimesStep(k - 1, size);
    TimesStep(0, size);
    if k == 0 {
      assert x == [] && x + y == y;
    } else {
      TimesStep(k, size);
      assert (x + y)[..size] == x[..size] && (x + y)[size..] == x[size..] + y;
      BlocksConcat(f, size, x[size..], y, k - 1);
    }
  }

  /** Each whole block of the result is the function of that block alone; a rest shorter than a block is kept. */
  lemma BlockByBlock(f: Bytes -> Bytes, size: int, x: Bytes, k: int)
    requires 1 <= size && Keeps(f, size) && 0 <= k && k * size <= |x|
    ensures |EachBlock(f, size, x)| == |x| && 0 <= k * size
    ensures k * size + size <= |x| ==>
              EachBlock(f, size, x)[k * size..k * size + size] == f(x[k * size..k * size + size])
    ensures |x| < k * size + size ==> EachBlock(f, size, x)[k * size..] == x[k * size..]
  {
    hide EachBlock, Times, Keeps;
    TimesIsProduct(k, size);
    BlockAt(f, size, x, k, k * size);
  }

  lemma {:induction false} BlockAt(f: Bytes -> Bytes, size: int, x: Bytes, k: int, at: int)
    requires 1 <= size && Keeps(f, size) && 0 <= k && at == Times(k, size) && at <= |x|
    ensures |EachBlock(f, size, x)| == |x| && 0 <= at
    ensures at + size <= |x| ==> EachBlock(f, size, x)[at..at + size] == f(x[at..at + size])
    ensures |x| < at + size ==> EachBlock(f, size, x)[at..] == x[at..]
    decreases k
  {
    hide Times, EachBlock, Keeps;
    SameLength(f, size, x);
    TimesStep(k, size);
    TimesStep(k - 1, size);
    if size <= |x| {
      FirstBlock(f, size, x);
      if k > 0 {
        SameLength(f, size, x[size..]);
        BlockAt(f, size, x[size..], k - 1, at - size);
        BehindBlock(f, size, f(x[..size]), EachBlock(f, size, x[size..]), x[..size], x[size..], at - size);
      }
    } else {
      NoBlock(f, size, x);
    }
  }

  lemma FirstBlock(f: Bytes -> Bytes, size: int, x: Bytes)
    requires 1 <= size <= |x| && Keeps(f, size)
    ensures EachBlock(f, size, x) == f(x[..size]) + EachBlock(f, size, x[size..]) && |f(x[..size])| == size
    ensures x == x[..size] + x[size..]
    ensures EachBlock(f, size, x)[..size] == f(x[..size])
  {
  }

  lemma NoBlock(f: Bytes -> Bytes, size: int, x: Bytes)
    requires |x| < size && 1 <= size
    ensures EachBlock(f, size, x) == x
  {
  }

  /** What holds of the blocks at a position holds with one more block in front, one block further on. */
  lemma BehindBlock(f: Bytes -> Bytes, size: int, a: Bytes, y: Bytes, b: Bytes, x: Bytes, at: int)
    requires |a| == |b| == size && |y| == |x| && 0 <= at <= |x|
    requires at + size <= |x| ==> y[at..at + size] == f(x[at..at + size])
    requires |x| < at + size ==> y[at..] == x[at..]
    ensures at + size <= |x| ==> (a + y)[size + at..size + at + size] == f((b + x)[size + at..size + at + size])
    ensures |x| < at + size ==> (a + y)[size + at..] == (b + x)[size + at..]
  {
    if at + size <= |x| {
      assert (a + y)[size + at..size + at + size] == y[at..at + size];
      assert (b + x)[size + at..size + at + size] == x[at..at + size];
    } else {
      assert (a + y)[size + at..] == y[at..] && (b + x)[size + at..] == x[at..];
    }
  }

  lemma {:induction false} DecryptEncrypt(c: Cipher, x: Bytes)
    requires Good(c)
    ensures Decrypted(c, Encrypted(c, x)) == x
    decreases |x|
  {
    if |x| >= c.size {
      var b, rest := c.encrypt(x[..c.size]), Encrypted(c, x[c.size..]);
      assert (b + rest)[..c.size] == b && (b + rest)[c.size..] == rest;
      DecryptEncrypt(c, x[c.size..]);
      assert x == x[..c.size] + x[c.size..];
    }
  }

  // ---------------------------------------------------------------- requests

  /** The values of the drivers' unsigned long are the numbers below this. */
  const WORD: int := 0x1_0000_0000

  /** What sbd_transfer is asked for: count sectors from a sector on, to or from a buffer. */
  datatype Request = Request(sector: int, count: int, write: bool, buffer: Bytes)

  ghost predicate InRange(r: Request, sectorSize: int, size: int) {
    Times(r.sector, sectorSize) + Times(r.count, sectorSize) <= size
  }

  /** Where sbd_transfer finds the bytes of a request, and how many: products of unsigned long. */
  ghost function Offset(r: Request, sectorSize: int): int {
    Times(r.sector, sectorSize) % WORD
  }

  ghost function Length(r: Request, sectorSize: int): int {
    Times(r.count, sectorSize) % WORD
  }

  /** The drivers' test for a request beyond the end of the disk, in unsigned long arithmetic. */
  ghost predicate Refused(r: Request, sectorSize: int, size: int) {
    (Offset(r, sectorSize) + Length(r, sectorSize)) % WORD > size
  }

  /** The end of the request is a proper word, or lies beyond the disk even after it has wrapped around. */
  ghost predicate NoFalseEnd(r: Request, sectorSize: int, size: int) {
    var end := Times(r.sector, sectorSize) + Times(r.count, sectorSize);
    end < WORD || end % WORD > size
  }

  /** The test tells requests beyond the end from the others exactly when their end does not wrap into the disk. */
  lemma TestIsExactIff(r: Request, sectorSize: int, size: int)
    requires 0 <= r.sector && 0 <= r.count && 1 <= sectorSize && 0 <= size < WORD
    ensures (Refused(r, sectorSize, size) <==> !InRange(r, sectorSize, size)) <==> NoFalseEnd(r, sectorSize, size)
  {
    TimesNonNegative(r.sector, sectorSize);
    TimesNonNegative(r.count, sectorSize);
    WordSum(Times(r.sector, sectorSize), Times(r.count, sectorSize));
  }

  lemma WordSum(x: int, y: int)
    requires 0 <= x && 0 <= y
    ensures (x % WORD + y % WORD) % WORD == (x + y) % WORD
    ensures x + y < WORD ==> (x + y) % WORD == x + y && x % WORD == x && y % WORD == y
  {
  }

  /** The last sector that an unsigned long can address ends at zero, and the test lets it pass. */
  lemma TestCanFail(size: int)
    requires 0 <= size < WORD
    ensures var r := Request(0x7f_ffff, 1, false, []);
            !InRange(r, 512, size) && !Refused(r, 512, size)
  {
    TimesIsProduct(0x7f_ffff, 512);
    TimesIsProduct(1, 512);
  }

  /**
   Sectors are numbered from 0, and a request that passes the test is one that the drivers can carry out within
   their memory: where they look for its bytes they stay on the disk, and the buffer has room.
   */
  ghost predicate Proper(r: Request, sectorSize: int, size: int) {
    && 0 <= r.sector && 0 <= r.count && 1 <= sectorSize
    && (!Refused(r, sectorSize, size) ==>
          && Offset(r, sectorSize) + Length(r, sectorSize) <= size
          && Length(r, sectorSize) <= |r.buffer|)
  }

  /** A request that passes the test stays on the disk exactly when the sum of its offset and length is a word. */
  lemma StaysOnDiskIff(r: Request, sectorSize: int, size: int)
    requires 0 <= size < WORD && !Refused(r, sectorSize, size)
    ensures Offset(r, sectorSize) + Length(r, sectorSize) <= size
       <==> Offset(r, sectorSize) + Length(r, sectorSize) < WORD
  {
  }

  /** The contents of the disk and of the buffer after a request. */
  datatype Outcome = Outcome(data: Bytes, buffer: Bytes)

  /** x with the bytes from offset at on replaced. */
  ghost function Overwritten(x: Bytes, at: int, part: Bytes): (y: Bytes)
    requires 0 <= at && at + |part| <= |x|
    ensures |y| == |x|
  {
    x[..at] + part + x[at + |part|..]
  }

  /** Byte i of it is byte i - at of the part, inside it, and what it was elsewhere. */
  lemma OverwrittenAt(x: Bytes, at: int, part: Bytes, i: int)
    requires 0 <= at && at + |part| <= |x| && 0 <= i < |x|
    ensures Overwritten(x, at, part)[i] == if at <= i < at + |part| then part[i - at] else x[i]
  {
  }

  /** What the plain disk does with a request. */
  ghost function Serve(data: Bytes, r: Request, sectorSize: int): (o: Outcome)
    requires Proper(r, sectorSize, |data|)
    ensures |o.data| == |data|
  {
    var offset, bytes := Offset(r, sectorSize), Length(r, sectorSize);
    if Refused(r, sectorSize, |data|) then Outcome(data, r.buffer)
    else if r.write then Outcome(Overwritten(data, offset, r.buffer[..bytes]), r.buffer)
    else Outcome(data, Overwritten(r.buffer, 0, data[offset..offset + bytes]))
  }

  /** What the encrypted disk does with it. */
  ghost function ServeEncrypted(c: Cipher, data: Bytes, r: Request, sectorSize: int): (o: Outcome)
    requires Good(c) && Proper(r, sectorSize, |data|)
    ensures |o.data| == |data|
  {
    var offset, bytes := Offset(r, sectorSize), Length(r, sectorSize);
    if Refused(r, sectorSize, |data|) then Outcome(data, r.buffer)
    else if r.write then
      Outcome(Overwritten(data, offset, Encrypted(c, r.buffer[..bytes])), r.buffer)
    else
      Outcome(data, Overwritten(r.buffer, 0, Decrypted(c, data[offset..offset + bytes])))
  }

  /**
   A request whose end does not wrap around into the disk is proper if the buffer has room for it.  It is then
   served as it was asked for: on the disk at the bytes of its own sectors, beyond the end not at all.
   */
  lemma ServedAsAsked(data: Bytes, r: Request, sectorSize: int)
    requires 0 <= r.sector && 0 <= r.count && 1 <= sectorSize && |data| < WORD && NoFalseEnd(r, sectorSize, |data|)
    requires InRange(r, sectorSize, |data|) ==> Times(r.count, sectorSize) <= |r.buffer|
    ensures Proper(r, sectorSize, |data|)
    ensures 0 <= Times(r.sector, sectorSize) && 0 <= Times(r.count, sectorSize)
    ensures var offset, bytes := Times(r.sector, sectorSize), Times(r.count, sectorSize);
            Serve(data, r, sectorSize) ==
            if !InRange(r, sectorSize, |data|) then Outcome(data, r.buffer)
            else if r.write then Outcome(Overwritten(data, offset, r.buffer[..bytes]), r.buffer)
            else Outcome(data, Overwritten(r.buffer, 0, data[offset..offset + bytes]))
  {
    hide Times, Overwritten;
    TestIsExactIff(r, sectorSize, |data|);
    TimesNonNegative(r.sector, sectorSize);
    TimesNonNegative(r.count, sectorSize);
    WordSum(Times(r.sector, sectorSize), Times(r.count, sectorSize));
  }

  /** Decrypting a disk decrypts the part before, inside and after a run of sectors. */
  lemma DecryptedParts(c: Cipher, a: Bytes, b: Bytes, z: Bytes, k: int, m: int)
    requires Good(c) && 0 <= k && 0 <= m && |a| == Times(k, c.size) && |b| == Times(m, c.size)
    ensures Decrypted(c, a + b + z) == Decrypted(c, a) + Decrypted(c, b) + Decrypted(c, z)
    ensures |Decrypted(c, a)| == |a| && |Decrypted(c, b)| == |b| && |Decrypted(c, z)| == |z|
  {
    hide Times;
    assert a + b + z == a + (b + z);
    BlocksConcat(c.decrypt, c.size, a, b + z, k);
    BlocksConcat(c.decrypt, c.size, b, z, m);
    SameLength(c.decrypt, c.size, a);
    SameLength(c.decrypt, c.size, b);
    SameLength(c.decrypt, c.size, z);
  }

  /** Decryption commutes with replacing whole blocks and with cutting them out. */
  lemma DecryptedOverwritten(c: Cipher, x: Bytes, at: int, part: Bytes, k: int, m: int)
    requires Good(c) && 0 <= k && 0 <= m && at == Times(k, c.size) && |part| == Times(m, c.size)
    requires 0 <= at && at + |part| <= |x|
    ensures |Decrypted(c, x)| == |x| && |Decrypted(c, part)| == |part|
    ensures Decrypted(c, Overwritten(x, at, part)) == Overwritten(Decrypted(c, x), at, Decrypted(c, part))
    ensures Decrypted(c, x)[at..at + |part|] == Decrypted(c, x[at..at + |part|])
  {
    hide Times, Decrypted;
    var a, b, z := x[..at], x[at..at + |part|], x[at + |part|..];
    assert x == a + b + z;
    DecryptedParts(c, a, b, z, k, m);
    DecryptedParts(c, a, part, z, k, m);
  }

  /** The bytes of the request are whole cipher blocks where the drivers look for them, wrapped around or not. */
  ghost predicate Aligned(r: Request, sectorSize: int, size: int, block: int) {
    Multiple(WORD, block) || NoFalseEnd(r, sectorSize, size)
  }

  /** A multiple of the block size, and what is left of it in an unsigned long, counted in blocks. */
  lemma WordInBlocks(k: int, block: int) returns (m: int)
    requires 0 <= k && 1 <= block && (Multiple(WORD, block) || Times(k, block) < WORD)
    ensures 0 <= m && Times(k, block) % WORD == Times(m, block)
  {
    hide Times;
    var x := Times(k, block);
    TimesNonNegative(k, block);
    if x < WORD {
      m := k;
    } else {
      var w :| Times(w, block) == WORD;
      var q := x / WORD;
      TimesIsProduct(q, WORD);
      TimesOfTimes(q, w, block);
      MultipleSum(x, Times(q * w, block), block);
      MultipleIsMod(x % WORD, block);
      m := x % WORD / block;
      TimesIsProduct(m, block);
    }
  }

  lemma InBlocks(r: Request, sectorSize: int, size: int, per: int, block: int) returns (k: int, m: int)
    requires 0 <= r.sector && 0 <= r.count && 1 <= per && 1 <= block && sectorSize == Times(per, block)
    requires 0 <= size < WORD && !Refused(r, sectorSize, size) && Aligned(r, sectorSize, size, block)
    ensures 0 <= k && 0 <= m
    ensures Offset(r, sectorSize) == Times(k, block) && Length(r, sectorSize) == Times(m, block)
  {
    hide Times;
    TimesStep(per, block);
    TimesNonNegative(r.sector, sectorSize);
    TimesNonNegative(r.count, sectorSize);
    TimesNonNegative(r.sector, per);
    TimesNonNegative(r.count, per);
    TimesOfTimes(r.sector, per, block);
    TimesOfTimes(r.count, per, block);
    WordSum(Times(r.sector, sectorSize), Times(r.count, sectorSize));
    k := WordInBlocks(r.sector * per, block);
    m := WordInBlocks(r.count * per, block);
  }

  /** Request by request, the encrypted disk is the plain disk that holds the decrypted data. */
  lemma EncryptedRefinesPlain(c: Cipher, data: Bytes, r: Request, sectorSize: int, per: int)
    requires Good(c) && 1 <= per && sectorSize == Times(per, c.size) && |data| < WORD
    requires Proper(r, sectorSize, |data|) && Aligned(r, sectorSize, |data|, c.size)
    ensures var o := ServeEncrypted(c, data, r, sectorSize);
            Serve(Decrypted(c, data), r, sectorSize) == Outcome(Decrypted(c, o.data), o.buffer)
  {
    hide Times, Encrypted, Decrypted, Overwritten, Aligned;
    if !Refused(r, sectorSize, |data|) {
      var k, m := InBlocks(r, sectorSize, |data|, per, c.size);
      var part := r.buffer[..Length(r, sectorSize)];
      DecryptedOverwritten(c, data, Offset(r, sectorSize), Encrypted(c, part), k, m);
      DecryptEncrypt(c, part);
    }
  }

  // ---------------------------------------------------------------- any sequence of requests

  ghost predicate AllProper(rs: seq<Request>, sectorSize: int, size: int) {
    forall i :: 0 <= i < |rs| ==> Proper(rs[i], sectorSize, size)
  }

  /** The final contents of the disk and the buffers as the requests left them. */
  datatype Log = Log(data: Bytes, buffers: seq<Bytes>)

  ghost function ServeAll(data: Bytes, rs: seq<Request>, sectorSize: int): (l: Log)
    requires AllProper(rs, sectorSize, |data|)
    ensures |l.data| == |data|
    decreases |rs|
  {
    if rs == [] then Log(data, []) else
      var o := Serve(data, rs[0], sectorSize);
      var rest := ServeAll(o.data, rs[1..], sectorSize);
      Log(rest.data, [o.buffer] + rest.buffers)
  }

  ghost function ServeAllEncrypted(c: Cipher, data: Bytes, rs: seq<Request>, sectorSize: int): (l: Log)
    requires Good(c) && AllProper(rs, sectorSize, |data|)
    ensures |l.data| == |data|
    decreases |rs|
  {
    if rs == [] then Log(data, []) else
      var o := ServeEncrypted(c, data, rs[0], sectorSize);
      var rest := ServeAllEncrypted(c, o.data, rs[1..], sectorSize);
      Log(rest.data, [o.buffer] + rest.buffers)
  }

  /** No sequence of reads, writes and out-of-range requests tells the two disks apart. */
  lemma {:induction false} Indistinguishable(c: Cipher, data: Bytes, rs: seq<Request>, sectorSize: int, per: int)
    requires Good(c) && 1 <= per && sectorSize == Times(per, c.size) && |data| < WORD
    requires AllProper(rs, sectorSize, |data|)
    requires forall i :: 0 <= i < |rs| ==> Aligned(rs[i], sectorSize, |data|, c.size)
    ensures var l := ServeAllEncrypted(c, data, rs, sectorSize);
            ServeAll(Decrypted(c, data), rs, sectorSize) == Log(Decrypted(c, l.data), l.buffers)
    decreases |rs|
  {
    hide Times, Serve, ServeEncrypted, Decrypted, Proper, Aligned;
    if rs != [] {
      EncryptedRefinesPlain(c, data, rs[0], sectorSize, per);
      Indistinguishable(c, ServeEncrypted(c, data, rs[0], sectorSize).data, rs[1..], sectorSize, per);
    }
  }

  /** The request writes none of the n bytes from at on. */
  ghost predicate Spares(r: Request, sectorSize: int, size: int, at: int, n: int) {
    r.write && !Refused(r, sectorSize, size) ==>
      Offset(r, sectorSize) + Length(r, sectorSize) <= at || at + n <= Offset(r, sectorSize)
  }

  /** Requests for other sectors spare the bytes of a sector, if their ends do not wrap around into the disk. */
  lemma OtherSectorsSpare(r: Request, w: Request, sectorSize: int, size: int)
    requires 0 <= r.sector && 0 <= r.count && 0 <= w.sector && 0 <= w.count && 1 <= sectorSize && 0 <= size < WORD
    requires NoFalseEnd(r, sectorSize, size) && InRange(w, sectorSize, size)
    requires r.sector + r.count <= w.sector || w.sector + w.count <= r.sector
    ensures Spares(r, sectorSize, size, Offset(w, sectorSize), Length(w, sectorSize))
  {
    hide Times;
    TimesNonNegative(r.sector, sectorSize);
    TimesNonNegative(r.count, sectorSize);
    TimesNonNegative(w.sector, sectorSize);
    TimesNonNegative(w.count, sectorSize);
    TimesSum(r.sector, r.count, sectorSize);
    TimesSum(w.sector, w.count, sectorSize);
    WordSum(Times(r.sector, sectorSize), Times(r.count, sectorSize));
    WordSum(Times(w.sector, sectorSize), Times(w.count, sectorSize));
    if r.sector + r.count <= w.sector {
      TimesOrder(r.sector + r.count, w.sector, sectorSize);
    } else {
      TimesOrder(w.sector + w.count, r.sector, sectorSize);
    }
  }

  ghost predicate Holds(data: Bytes, at: int, part: Bytes) {
    0 <= at && at + |part| <= |data| && data[at..at + |part|] == part
  }

  lemma SparedKept(data: Bytes, r: Request, sectorSize: int, at: int, part: Bytes)
    requires Proper(r, sectorSize, |data|) && Spares(r, sectorSize, |data|, at, |part|) && Holds(data, at, part)
    ensures Holds(Serve(data, r, sectorSize).data, at, part)
  {
    hide Times;
  }

  lemma {:induction false} SparedByAll(data: Bytes, rs: seq<Request>, sectorSize: int, at: int, part: Bytes)
    requires AllProper(rs, sectorSize, |data|) && Holds(data, at, part)
    requires forall i :: 0 <= i < |rs| ==> Spares(rs[i], sectorSize, |data|, at, |part|)
    ensures Holds(ServeAll(data, rs, sectorSize).data, at, part)
    decreases |rs|
  {
    hide Times, Serve, Holds, Proper, Spares;
    if rs != [] {
      SparedKept(data, rs[0], sectorSize, at, part);
      SparedByAll(Serve(data, rs[0], sectorSize).data, rs[1..], sectorSize, at, part);
    }
  }

  lemma WrittenHolds(data: Bytes, w: Request, sectorSize: int)
    requires Proper(w, sectorSize, |data|) && !Refused(w, sectorSize, |data|) && w.write
    ensures Holds(Serve(data, w, sectorSize).data, Offset(w, sectorSize), w.buffer[..Length(w, sectorSize)])
  {
    hide Times;
  }

  lemma ReadHeld(data: Bytes, r: Request, sectorSize: int, part: Bytes)
    requires Proper(r, sectorSize, |data|) && !Refused(r, sectorSize, |data|) && !r.write
    requires Holds(data, Offset(r, sectorSize), part) && |part| == Length(r, sectorSize)
    ensures Serve(data, r, sectorSize).buffer == part + r.buffer[|part|..]
  {
    hide Times;
  }

  /** Sectors read back as they were written, whatever requests that spare them come in between. */
  lemma ReadBack(data: Bytes, w: Request, rs: seq<Request>, r: Request, sectorSize: int)
    requires Proper(w, sectorSize, |data|) && !Refused(w, sectorSize, |data|) && w.write
    requires AllProper(rs, sectorSize, |data|)
    requires forall i :: 0 <= i < |rs| ==>
               Spares(rs[i], sectorSize, |data|, Offset(w, sectorSize), Length(w, sectorSize))
    requires Proper(r, sectorSize, |data|) && !r.write && r.sector == w.sector && r.count == w.count
    ensures var n := Length(w, sectorSize);
            var between := ServeAll(Serve(data, w, sectorSize).data, rs, sectorSize).data;
            Serve(between, r, sectorSize).buffer == w.buffer[..n] + r.buffer[n..]
  {
    hide Times, Serve, ServeAll, Holds, Spares;
    WrittenHolds(data, w, sectorSize);
    var part, d := w.buffer[..Length(w, sectorSize)], Serve(data, w, sectorSize).data;
    SparedByAll(d, rs, sectorSize, Offset(w, sectorSize), part);
    ReadHeld(ServeAll(d, rs, sectorSize).data, r, sectorSize, part);
  }

  // ---------------------------------------------------------------- the drivers

  /** The start of sbd_transfer: where the bytes of a request are, and whether they lie beyond the end. */
  method Locate(sector: int, nsect: int, sectorSize: int, size: int, ghost r: Request)
      returns (offset: int, nbytes: int, refused: bool)
    requires 0 <= size < WORD && Proper(r, sectorSize, size) && sector == r.sector && nsect == r.count
    ensures refused <==> Refused(r, sectorSize, size)
    ensures 0 <= offset == Offset(r, sectorSize) && 0 <= nbytes == Length(r, sectorSize)
    ensures offset == (sector * sectorSize) % 0x1_0000_0000 && nbytes == (nsect * sectorSize) % 0x1_0000_0000
    ensures refused <==> (offset + nbytes) % 0x1_0000_0000 > size
    ensures NoFalseEnd(r, sectorSize, size) ==> (refused <==> !InRange(r, sectorSize, size))
    ensures NoFalseEnd(r, sectorSize, size) && !refused ==>
              offset == Times(sector, sectorSize) && nbytes == Times(nsect, sectorSize)
  {
    hide Times;
    TestIsExactIff(r, sectorSize, size);
    TimesNonNegative(sector, sectorSize);
    TimesNonNegative(nsect, sectorSize);
    TimesIsProduct(sector, sectorSize);
    TimesIsProduct(nsect, sectorSize);
    WordSum(Times(sector, sectorSize), Times(nsect, sectorSize));
    offset := (sector * sectorSize) % WORD;
    nbytes := (nsect * sectorSize) % WORD;
    refused := (offset + nbytes) % WORD > size;
  }

  class PlainDisk {
    const data: array<bv8>
    const sectorSize: int

    ghost predicate Valid() {
      data.Length < WORD
    }

    constructor (sectors: int, sectorSize: int)
      requires 0 <= sectors && 1 <= sectorSize && Times(sectors, sectorSize) < WORD
      ensures Valid() && fresh(data) && data.Length == Times(sectors, sectorSize) && this.sectorSize == sectorSize
    {
      this.sectorSize := sectorSize;
      TimesIsProduct(sectors, sectorSize);
      TimesNonNegative(sectors, sectorSize);
      data := new bv8[sectors * sectorSize];
    }

    /** sbd_transfer of the plain driver. */
    method Transfer(sector: int, nsect: int, buffer: array<bv8>, write: bool)
      requires Valid() && buffer != data
      requires Proper(Request(sector, nsect, write, buffer[..]), sectorSize, data.Length)
      modifies data, buffer
      ensures Outcome(data[..], buffer[..]) ==
              old(Serve(data[..], Request(sector, nsect, write, buffer[..]), sectorSize))
    {
      hide Times, NoFalseEnd, InRange;
      var offset, nbytes, refused := Locate(sector, nsect, sectorSize, data.Length,
                                            Request(sector, nsect, write, buffer[..]));
      if refused {
        return;
      }
      if write {
        Copy(buffer, 0, data, offset, nbytes);
      } else {
        Copy(data, offset, buffer, 0, nbytes);
      }
    }
  }

  /** memcpy between two arrays. */
  method Copy(from: array<bv8>, at: int, to: array<bv8>, pos: int, n: int)
    requires from != to && 0 <= at && 0 <= pos && 0 <= n && at + n <= from.Length && pos + n <= to.Length
    modifies to
    ensures to[..] == Overwritten(old(to[..]), pos, from[at..at + n])
  {
    forall i | 0 <= i < n {
      to[pos + i] := from[at + i];
    }
  }

  /** Stores a block in an array. */
  method PutBlock(to: array<bv8>, pos: int, block: Bytes)
    requires 0 <= pos && pos + |block| <= to.Length
    modifies to
    ensures to[..] == Overwritten(old(to[..]), pos, block)
  {
    forall i | 0 <= i < |block| {
      to[pos + i] := block[i];
    }
  }

  /** One more block of x, at position i, that a function is applied to. */
  lemma OneMoreBlock(f: Bytes -> Bytes, size: int, x: Bytes, k: int)
    requires 1 <= size && Keeps(f, size) && 0 <= k && Times(k, size) + size <= |x|
    ensures 0 <= Times(k, size) && Times(k + 1, size) == Times(k, size) + size
    ensures |EachBlock(f, size, x[..Times(k, size)])| == Times(k, size)
    ensures EachBlock(f, size, x[..Times(k + 1, size)]) ==
            EachBlock(f, size, x[..Times(k, size)]) + f(x[Times(k, size)..Times(k, size) + size])
  {
    hide Times;
    TimesStep(k, size);
    var i := Times(k, size);
    var done, block := x[..i], x[i..i + size];
    assert x[..i + size] == done + block;
    SameLength(f, size, done);
    BlocksConcat(f, size, done, block, k);
    assert block[..size] == block && block[size..] == [];
    assert f(block) + EachBlock(f, size, []) == f(block);
  }

  lemma OverwrittenFurther(x: Bytes, at: int, a: Bytes, b: Bytes)
    requires 0 <= at && at + |a| + |b| <= |x|
    ensures Overwritten(Overwritten(x, at, a), at + |a|, b) == Overwritten(x, at, a + b)
  {
  }

  lemma SliceOfSlice(s: Bytes, at: int, n: int, i: int, m: int)
    requires 0 <= at && at + n <= |s| && 0 <= i && 0 <= m && i + m <= n
    ensures s[at..at + n][i..i + m] == s[at + i..at + i + m]
  {
    var cut := s[at..at + n];
    var x, y := cut[i..i + m], s[at + i..at + i + m];
    forall j | 0 <= j < m ensures x[j] == y[j] {
      assert cut[i + j] == s[at + (i + j)];
    }
  }

  lemma OverwrittenNothing(x: Bytes, at: int)
    requires 0 <= at <= |x|
    ensures Overwritten(x, at, []) == x
  {
  }

  /** A function applied block by block to part of an array, the results stored in another. */
  method EachBlockInto(f: Bytes -> Bytes, size: int, from: array<bv8>, at: int, to: array<bv8>, pos: int,
                       nbytes: int, ghost blocks: int)
    requires 1 <= size && Keeps(f, size) && from != to && 0 <= blocks && 0 <= nbytes == Times(blocks, size)
    requires 0 <= at && 0 <= pos && at + nbytes <= from.Length && pos + nbytes <= to.Length
    modifies to
    ensures |EachBlock(f, size, from[at..at + nbytes])| == nbytes
    ensures to[..] == Overwritten(old(to[..]), pos, EachBlock(f, size, from[at..at + nbytes]))
  {
    hide Times, EachBlock, Overwritten;
    TimesStep(blocks, size);
    ghost var x, y := from[at..at + nbytes], to[..];
    TimesStep(0, size);
    var i := 0;
    ghost var k := 0;
    EmptyBlocks(f, size);
    OverwrittenNothing(y, pos);
    while i < nbytes
      invariant 0 <= k <= blocks && i == Times(k, size) <= nbytes
      invariant |EachBlock(f, size, x[..i])| == i
      invariant to[..] == Overwritten(y, pos, EachBlock(f, size, x[..i]))
      decreases nbytes - i
    {
      BlocksLeft(k, blocks, size);
      OneMoreBlock(f, size, x, k);
      var block := from[at + i..at + i + size];
      SliceOfSlice(from[..], at, nbytes, i, size);
      PutBlock(to, pos + i, f(block));
      OverwrittenFurther(y, pos, EachBlock(f, size, x[..i]), f(block));
      i := i + size;
      k := k + 1;
    }
    assert x[..i] == x;
  }

  lemma EmptyBlocks(f: Bytes -> Bytes, size: int)
    requires 1 <= size
    ensures EachBlock(f, size, []) == []
  {
  }

  lemma BlocksLeft(k: int, m: int, n: int)
    requires 1 <= n && Times(k, n) < Times(m, n)
    ensures k + 1 <= m && Times(k, n) + n <= Times(m, n)
  {
    hide Times;
    if m <= k {
      TimesOrder(m, k, n);
    }
    TimesOrder(k + 1, m, n);
    TimesStep(k, n);
  }

  class EncryptedDisk {
    const data: array<bv8>
    const sectorSize: int
    const crypto: Cipher
    ghost const per: int

    ghost predicate Valid() {
      Good(crypto) && 1 <= per && sectorSize == Times(per, crypto.size) && data.Length < WORD
    }

    /** Sectors are made of whole cipher blocks. */
    constructor (sectors: int, sectorSize: int, crypto: Cipher, ghost per: int)
      requires 0 <= sectors && Times(sectors, sectorSize) < WORD
      requires Good(crypto) && 1 <= per && sectorSize == Times(per, crypto.size)
      ensures Valid() && fresh(data) && data.Length == Times(sectors, sectorSize)
      ensures this.sectorSize == sectorSize && this.crypto == crypto
    {
      this.sectorSize, this.crypto, this.per := sectorSize, crypto, per;
      TimesStep(per, crypto.size);
      TimesIsProduct(sectors, sectorSize);
      TimesNonNegative(sectors, sectorSize);
      data := new bv8[sectors * sectorSize];
    }

    /** The contents of the disk as its users see them. */
    ghost function Plain(): Bytes
      requires Valid()
      reads data
    {
      Decrypted(crypto, data[..])
    }

    /** sbd_transfer of the encrypting driver does to the decrypted data what the plain one does. */
    method Transfer(sector: int, nsect: int, buffer: array<bv8>, write: bool)
      requires Valid() && buffer != data
      requires Proper(Request(sector, nsect, write, buffer[..]), sectorSize, data.Length)
      requires Aligned(Request(sector, nsect, write, buffer[..]), sectorSize, data.Length, crypto.size)
      modifies data, buffer
      ensures Outcome(data[..], buffer[..]) ==
              old(ServeEncrypted(crypto, data[..], Request(sector, nsect, write, buffer[..]), sectorSize))
      ensures Outcome(Plain(), buffer[..]) ==
              old(Serve(Plain(), Request(sector, nsect, write, buffer[..]), sectorSize))
    {
      hide Keeps, Times, EachBlock, Overwritten, NoFalseEnd, InRange, Aligned;
      ghost var r := Request(sector, nsect, write, buffer[..]);
      EncryptedRefinesPlain(crypto, data[..], r, sectorSize, per);
      var offset, nbytes, refused := Locate(sector, nsect, sectorSize, data.Length, r);
      if refused {
        return;
      }
      ghost var k, m := InBlocks(r, sectorSize, data.Length, per, crypto.size);
      if write {
        EachBlockInto(crypto.encrypt, crypto.size, buffer, 0, data, offset, nbytes, m);
      } else {
        EachBlockInto(crypto.decrypt, crypto.size, data, offset, buffer, 0, nbytes, m);
      }
    }
  }
}
