/** How a flat byte array is laid out as blocks that each carry their checksum
    (`pkg/fileservice/file_with_checksum.go`). */
module ChecksumLayout {
  import opened Arithmetic
  import opened Bytes

  const CHECKSUM_SIZE := 4

  type uint32 = x: int | 0 <= x < 0x1_0000_0000

  /** The checksum function; nothing is known of it but that it is a function. */
  type Crc = seq<byte> -> uint32

  // Block k of the content starts at At(size, k).

  /** Where block k starts on disk: behind k full blocks and their checksums. */
  function RawAt(size: nat, k: nat): nat {
    At(size, k) + CHECKSUM_SIZE * k
  }

  lemma {:induction false} RawAtIsProduct(size: nat, k: nat)
    ensures RawAt(size, k) == k * (size + CHECKSUM_SIZE)
  {
    AtIsProduct(size, k);
    assert k * (size + CHECKSUM_SIZE) == k * size + CHECKSUM_SIZE * k;
  }

  /** The content of block k; the last block may be short. */
  function BlockData(size: nat, content: seq<byte>, k: nat): seq<byte>
    requires At(size, k) <= |content|
  {
    content[At(size, k)..Min(At(size, k + 1), |content|)]
  }

  /** n blocks cover the content, and none of them is empty. */
  ghost predicate Cover(size: nat, n: nat, length: nat) {
    length <= At(size, n) && (n > 0 ==> At(size, n - 1) < length)
  }

  /** On disk, block k is its checksum followed by its content. */
  ghost predicate Stored(size: nat, raw: seq<byte>, sums: seq<uint32>, content: seq<byte>, k: nat)
    requires k < |sums|
  {
    && At(size, k) <= |content|
    && var data := BlockData(size, content, k);
    && RawAt(size, k) + CHECKSUM_SIZE + |data| <= |raw|
    && raw[RawAt(size, k)..RawAt(size, k) + CHECKSUM_SIZE + |data|] == Le(sums[k], CHECKSUM_SIZE) + data
  }

  /** `raw` holds `content` in blocks with the checksums `sums`. */
  ghost predicate Laid(size: nat, raw: seq<byte>, sums: seq<uint32>, content: seq<byte>) {
    && Cover(size, |sums|, |content|)
    && |raw| == |content| + CHECKSUM_SIZE * |sums|
    && forall k :: 0 <= k < |sums| ==> Stored(size, raw, sums, content, k)
  }

  /** The stored checksum of block k is that of its content. */
  ghost predicate Good(crc: Crc, size: nat, sums: seq<uint32>, content: seq<byte>, k: nat)
    requires k < |sums|
  {
    At(size, k) <= |content| && sums[k] == crc(BlockData(size, content, k))
  }

  ghost predicate AllGood(crc: Crc, size: nat, sums: seq<uint32>, content: seq<byte>) {
    forall k :: 0 <= k < |sums| ==> Good(crc, size, sums, content, k)
  }

  /** The file as it is on disk: the content in pieces of the block size, each behind its checksum. */
  ghost function Chunked(crc: Crc, size: nat, content: seq<byte>): seq<byte>
    requires size > 0
    decreases |content|
  {
    if content == [] then []
    else
      var n := Min(size, |content|);
      Le(crc(content[..n]), 4) + content[..n] + Chunked(crc, size, content[n..])
  }

  /** An undamaged file holds exactly these bytes. */
  lemma {:induction false} IntactIsChunked(crc: Crc, size: nat, raw: seq<byte>, sums: seq<uint32>, content: seq<byte>)
    requires size > 0 && Laid(size, raw, sums, content) && AllGood(crc, size, sums, content)
    ensures raw == Chunked(crc, size, content)
  {
    ChunkedFrom(crc, size, raw, sums, content, 0);
    assert raw[0..] == raw && content[0..] == content;
  }

  lemma {:induction false} ChunkedFrom(crc: Crc, size: nat, raw: seq<byte>, sums: seq<uint32>, content: seq<byte>,
                                       k: nat)
    requires size > 0 && Laid(size, raw, sums, content) && AllGood(crc, size, sums, content) && k <= |sums|
    ensures var at, on := Min(At(size, k), |content|), Min(RawAt(size, k), |raw|);
      raw[on..] == Chunked(crc, size, content[at..])
    decreases |sums| - k
  {
    if k == |sums| {
      assert RawAt(size, k) >= |raw|;
    } else {
      Inside(size, |sums|, |content|, k);
      ChunkedFrom(crc, size, raw, sums, content, k + 1);
      ChunkedBlock(crc, size, raw, sums, content, k);
    }
  }

  lemma {:induction false} ChunkedBlock(crc: Crc, size: nat, raw: seq<byte>, sums: seq<uint32>, content: seq<byte>,
                                        k: nat)
    requires size > 0 && k < |sums| && Stored(size, raw, sums, content, k) && Good(crc, size, sums, content, k)
    requires At(size, k) < |content| && |raw| == |content| + CHECKSUM_SIZE * |sums|
    requires k < |sums| - 1 ==> At(size, k + 1) < |content|
    requires k == |sums| - 1 ==> |content| <= At(size, k + 1)
    requires raw[Min(RawAt(size, k + 1), |raw|)..] == Chunked(crc, size, content[Min(At(size, k + 1), |content|)..])
    ensures raw[RawAt(size, k)..] == Chunked(crc, size, content[At(size, k)..])
  {
    var at, on := At(size, k), RawAt(size, k);
    var rest, data := content[at..], BlockData(size, content, k);
    var n := Min(size, |rest|);
    assert rest[..n] == data && rest[n..] == content[Min(At(size, k + 1), |content|)..];
    var end := on + CHECKSUM_SIZE + n;
    assert end == Min(RawAt(size, k + 1), |raw|);
    assert raw[on..] == raw[on..end] + raw[end..];
  }

  /** Block k lies inside the content, and only the last one is short. */
  lemma {:induction false} Inside(size: nat, n: nat, length: nat, k: nat)
    requires Cover(size, n, length) && k < n
    ensures At(size, k) < length
    ensures k < n - 1 ==> At(size, k + 1) < length
  {
    AtMonotone(size, k, n - 1);
    AtMonotone(size, k + 1, n - 1);
  }

  /** A position At(k) + o inside the content belongs to block k; the one just behind the content
      belongs to a short last block, or starts a new one. */
  lemma {:induction false} Locate(size: nat, n: nat, length: nat, k: nat, o: nat)
    requires Cover(size, n, length) && o < size && At(size, k) + o <= length
    ensures k <= n
    ensures k == n ==> o == 0 && At(size, k) == length
    ensures At(size, k) + o < length ==> k < n
  {
    AtMonotone(size, n, k);
    AtMonotone(size, n + 1, k);
  }

  /** A content position belongs to the block of its quotient, at its remainder. */
  lemma {:induction false} BlockOf(size: nat, pos: nat)
    requires size > 0
    ensures pos == At(size, pos / size) + pos % size
  {
    assert pos == pos / size * size + pos % size;
    AtIsProduct(size, pos / size);
  }

  lemma {:induction false} FirstBlock(size: nat, pos: nat) returns (k: nat)
    requires size > 0
    ensures At(size, k) <= pos < At(size, k + 1)
  {
    k := pos / size;
    BlockOf(size, pos);
  }

  /** The size of the file determines the size of the content. */
  lemma {:induction false} ContentSize(size: nat, n: nat, length: nat)
    requires size > 0 && Cover(size, n, length)
    ensures n == CeilingDiv(length + CHECKSUM_SIZE * n, size + CHECKSUM_SIZE)
  {
    var block, total := size + CHECKSUM_SIZE, length + CHECKSUM_SIZE * n;
    if n > 0 {
      RawAtIsProduct(size, n - 1);
      var rest := total - (n - 1) * block;
      assert 0 < rest <= block;
      if rest == block {
        assert total == n * block;
        DivModUnique(total, n, 0, block);
      } else {
        DivModUnique(total, n - 1, rest, block);
      }
    }
  }

  function CeilingDiv(n: nat, d: nat): nat
    requires d > 0
  {
    if n % d == 0 then n / d else n / d + 1
  }

  /** The content ends inside a block exactly when its length is no multiple of the block size. */
  lemma {:induction false} EndMod(size: nat, n: nat, length: nat)
    requires size > 0 && Cover(size, n, length)
    ensures length % size != 0 <==> length < At(size, n)
  {
    if n > 0 {
      AtIsProduct(size, n - 1);
      AtIsProduct(size, n);
      if length == At(size, n) {
        DivModUnique(length, n, 0, size);
      } else {
        DivModUnique(length, n - 1, length - At(size, n - 1), size);
      }
    }
  }

  // ---- Writing ----

  /** `s` with `d` written over it from `at` on, growing it when `d` reaches past its end. */
  function Splice(s: seq<byte>, at: nat, d: seq<byte>): (r: seq<byte>)
    requires at <= |s|
    ensures |r| == if at + |d| < |s| then |s| else at + |d|
  {
    s[..at] + d + if at + |d| < |s| then s[at + |d|..] else []
  }

  lemma {:induction false} SpliceTwice(s: seq<byte>, at: nat, d: seq<byte>, e: seq<byte>)
    requires at <= |s|
    ensures Splice(Splice(s, at, d), at + |d|, e) == Splice(s, at, d + e)
  {
    var mid := Splice(s, at, d);
    assert mid[..at + |d|] == s[..at] + d;
    if at + |d| + |e| < |s| {
      assert mid[at + |d| + |e|..] == s[at + |d| + |e|..];
    }
  }

  lemma {:induction false} SliceBefore(s: seq<byte>, at: nat, d: seq<byte>, lo: nat, hi: nat)
    requires lo <= hi <= at <= |s|
    ensures Splice(s, at, d)[lo..hi] == s[lo..hi]
  {}

  lemma {:induction false} SliceBehind(s: seq<byte>, at: nat, d: seq<byte>, lo: nat, hi: nat)
    requires at + |d| <= lo <= hi <= |s|
    ensures Splice(s, at, d)[lo..hi] == s[lo..hi]
  {}

  lemma {:induction false} SliceOver(s: seq<byte>, at: nat, d: seq<byte>)
    requires at <= |s|
    ensures Splice(s, at, d)[at..at + |d|] == d
  {}

  /** Splicing into the content of block k is splicing into the whole content. */
  lemma {:induction false} SpliceBlock(size: nat, content: seq<byte>, k: nat, o: nat, d: seq<byte>)
    requires At(size, k) + o <= |content| && o + |d| <= size
    requires o <= |BlockData(size, content, k)|
    requires o + |d| <= |BlockData(size, content, k)| || |content| <= At(size, k + 1)
    ensures At(size, k) <= |Splice(content, At(size, k) + o, d)|
    ensures BlockData(size, Splice(content, At(size, k) + o, d), k) == Splice(BlockData(size, content, k), o, d)
  {
    SpliceWindow(content, At(size, k), Min(At(size, k + 1), |content|), o, d);
  }

  /** A window onto a spliced sequence is the spliced window, if the window reaches as far. */
  lemma {:induction false} SpliceWindow(s: seq<byte>, lo: nat, hi: nat, o: nat, d: seq<byte>)
    requires lo + o <= hi <= |s| && (lo + o + |d| <= hi || hi == |s|)
    ensures var end := if lo + o + |d| <= hi then hi else lo + o + |d|;
            end <= |Splice(s, lo + o, d)| && Splice(s, lo + o, d)[lo..end] == Splice(s[lo..hi], o, d)
  {
    var p, m, q := s[..lo], s[lo..hi], s[hi..];
    assert s == p + m + q;
    SpliceInside(s, p, m, q, lo + o, o, d);
  }

  lemma {:induction false} SpliceInside(s: seq<byte>, p: seq<byte>, m: seq<byte>, q: seq<byte>, at: nat, o: nat,
                                        d: seq<byte>)
    requires s == p + m + q && at == |p| + o
    requires o <= |m| && (q == [] || o + |d| <= |m|)
    ensures |p| + |Splice(m, o, d)| <= |Splice(s, at, d)|
    ensures Splice(s, at, d)[|p|..|p| + |Splice(m, o, d)|] == Splice(m, o, d)
  {
    assert s[..at] == p + m[..o];
    if o + |d| <= |m| {
      assert s[at + |d|..] == m[o + |d|..] + q;
    }
    var m' := Splice(m, o, d);
    assert Splice(s, at, d) == p + m' + q;
    MiddlePart(p, m', q);
  }

  lemma {:induction false} MiddlePart(p: seq<byte>, m: seq<byte>, q: seq<byte>)
    ensures (p + m + q)[|p|..|p| + |m|] == m
  {}

  ghost function PutSum(sums: seq<uint32>, k: nat, sum: uint32): seq<uint32>
    requires k <= |sums|
  {
    if k < |sums| then sums[k := sum] else sums + [sum]
  }

  /** A block that ends before a write, or starts behind it, keeps its content. */
  lemma {:induction false} OtherContent(size: nat, content: seq<byte>, at: nat, d: seq<byte>, j: nat)
    requires at <= |content| && At(size, j) < |content|
    requires At(size, j + 1) <= at || at + |d| <= At(size, j)
    ensures At(size, j) < |Splice(content, at, d)|
    ensures BlockData(size, Splice(content, at, d), j) == BlockData(size, content, j)
  {
    if At(size, j + 1) <= at {
      SliceBefore(content, at, d, At(size, j), At(size, j + 1));
    } else {
      SliceBehind(content, at, d, At(size, j), Min(At(size, j + 1), |content|));
    }
  }

  /** A block that a write to the disk does not meet stays stored. */
  lemma {:induction false} OtherStored(size: nat, raw: seq<byte>, sums: seq<uint32>, content: seq<byte>,
                                       sums': seq<uint32>, content': seq<byte>, at: nat, enc: seq<byte>, j: nat)
    requires j < |sums| && j < |sums'| && sums'[j] == sums[j]
    requires At(size, j) <= |content| && At(size, j) <= |content'|
    requires BlockData(size, content', j) == BlockData(size, content, j)
    requires Stored(size, raw, sums, content, j) && at <= |raw|
    requires RawAt(size, j) + CHECKSUM_SIZE + |BlockData(size, content, j)| <= at || at + |enc| <= RawAt(size, j)
    ensures Stored(size, Splice(raw, at, enc), sums', content', j)
  {
    var lo, hi := RawAt(size, j), RawAt(size, j) + CHECKSUM_SIZE + |BlockData(size, content, j)|;
    if hi <= at {
      SliceBefore(raw, at, enc, lo, hi);
    } else {
      SliceBehind(raw, at, enc, lo, hi);
    }
  }

  lemma {:induction false} OtherBlock(size: nat, raw: seq<byte>, sums: seq<uint32>, content: seq<byte>, k: nat,
                                      at: nat, d: seq<byte>, sums': seq<uint32>, enc: seq<byte>, j: nat)
    requires Laid(size, raw, sums, content)
    requires At(size, k) <= at <= |content| && at + |d| <= At(size, k + 1)
    requires j < |sums| && j != k && RawAt(size, k) <= |raw| && |enc| <= size + CHECKSUM_SIZE
    requires j < |sums'| && sums'[j] == sums[j]
    ensures var content' := Splice(content, at, d);
            Stored(size, Splice(raw, RawAt(size, k), enc), sums', content', j)
  {
    assert Stored(size, raw, sums, content, j);
    Inside(size, |sums|, |content|, j);
    AtMonotone(size, j + 1, k);
    AtMonotone(size, k + 1, j);
    OtherContent(size, content, at, d, j);
    OtherStored(size, raw, sums, content, sums', Splice(content, at, d), RawAt(size, k), enc, j);
  }

  /** Writing `d` into block k at position `at`: the content changes there and nowhere else, and
      rewriting checksum and data of that one block makes the file stand for the new content. */
  lemma {:induction false} BlockWritten(size: nat, raw: seq<byte>, sums: seq<uint32>, content: seq<byte>, k: nat,
                                        at: nat, d: seq<byte>, sum: uint32)
    requires Laid(size, raw, sums, content)
    requires k <= |sums| && |d| > 0 && At(size, k) <= at <= |content| && at + |d| <= At(size, k + 1)
    requires k == |sums| ==> at == At(size, k)
    ensures RawAt(size, k) <= |raw|
    ensures At(size, k) <= |Splice(content, at, d)|
    ensures Laid(size, Splice(raw, RawAt(size, k), Le(sum, CHECKSUM_SIZE) + BlockData(size, Splice(content, at, d), k)),
                 PutSum(sums, k, sum), Splice(content, at, d))
  {
    var n, content', sums' := |sums|, Splice(content, at, d), PutSum(sums, k, sum);
    var enc := Le(sum, CHECKSUM_SIZE) + BlockData(size, content', k);
    AtMonotone(size, k, n);
    AtMonotone(size, k + 1, n);
    if k < n {
      Inside(size, n, |content|, k);
    }
    var raw' := Splice(raw, RawAt(size, k), enc);
    SizesAfter(size, n, |content|, |content'|, k, at, |d|, |enc|, |raw|, |raw'|);
    forall j | 0 <= j < |sums'|
      ensures Stored(size, raw', sums', content', j)
    {
      if j == k {
        SliceOver(raw, RawAt(size, k), enc);
      } else {
        OtherBlock(size, raw, sums, content, k, at, d, sums', enc, j);
      }
    }
  }

  /** The lengths after a write into block k. */
  lemma {:induction false} SizesAfter(size: nat, n: nat, c: nat, c': nat, k: nat, at: nat, d: nat, e: nat, r: nat,
                                      r': nat)
    requires Cover(size, n, c) && k <= n && d > 0 && At(size, k) <= at <= c && at + d <= At(size, k + 1)
    requires k == n ==> at == At(size, k)
    requires c' == if at + d < c then c else at + d
    requires e == CHECKSUM_SIZE + Min(At(size, k + 1), c') - At(size, k)
    requires r == c + CHECKSUM_SIZE * n
    requires r' == if RawAt(size, k) + e < r then r else RawAt(size, k) + e
    ensures Cover(size, if k < n then n else n + 1, c')
    ensures r' == c' + CHECKSUM_SIZE * (if k < n then n else n + 1)
  {
    if k < n {
      AtMonotone(size, k + 1, n - 1);
    }
    AtMonotone(size, k + 1, n);
  }

  /** Block k is looked at when `len` bytes at `offset` are read or written. */
  ghost predicate Touched(size: nat, offset: nat, len: nat, k: nat) {
    len > 0 && offset < At(size, k + 1) && At(size, k) < offset + len
  }

  /** A read of `len` bytes at `offset` runs out of content, or takes the last byte of a short block. */
  ghost predicate ReachesEnd(size: nat, total: nat, offset: nat, len: nat)
    requires size > 0
  {
    len > 0 && (offset + len > total || (offset + len == total && total % size != 0))
  }

  /** The checksums and the content of a file, whose blocks have `size` bytes of content. */
  datatype View = View(crc: Crc, size: nat, sums: seq<uint32>, content: seq<byte>) {

    ghost predicate Covered() {
      size > 0 && Cover(size, |sums|, |content|)
    }

    /** No block is damaged. */
    ghost predicate Intact()
    {
      AllGood(crc, size, sums, content)
    }

    ghost predicate GoodBlock(k: nat)
    {
      k < |sums| ==> Good(crc, size, sums, content, k)
    }

    /** Every block that `len` bytes at `offset` touch is undamaged. */
    ghost predicate TouchedGood(offset: nat, len: nat)
    {
      forall k :: 0 <= k < |sums| && Touched(size, offset, len, k) ==> GoodBlock(k)
    }

    /** The first damaged block that is touched starts n bytes behind `offset`, or contains it. */
    ghost predicate DamagedAt(offset: nat, len: nat, n: nat)
    {
      exists k ::
        && 0 <= k < |sums| && Touched(size, offset, len, k) && !GoodBlock(k)
        && n == (if At(size, k) <= offset then 0 else At(size, k) - offset)
        && forall j :: 0 <= j < k && Touched(size, offset, len, j) ==> GoodBlock(j)
    }

    /** The content ends inside a block. */
    ghost predicate EndsShort()
    {
      |content| < At(size, |sums|)
    }

    lemma {:induction false} EndOfContent(k: nat, pos: nat, nb: nat)
      requires Covered() && At(size, k) <= pos < At(size, k + 1) && nb > 0 && pos + nb == |content| <= At(size, k + 1)
      ensures |content| < At(size, k + 1) <==> EndsShort()
    {
      AtMonotone(size, |sums|, k);
      AtMonotone(size, k + 2, |sums|);
    }

    /** Writing `d` into block k, with its checksum, leaves every other block as good as it was. */
    lemma {:induction false} OnlyBlock(v': View, k: nat, at: nat, d: seq<byte>)
      requires Covered() && k <= |sums| && |d| > 0 && At(size, k) <= at <= |content| && at + |d| <= At(size, k + 1)
      requires k == |sums| ==> at == At(size, k)
      requires At(size, k) <= |Splice(content, at, d)|
      requires v' == View(crc, size, PutSum(sums, k, crc(BlockData(size, Splice(content, at, d), k))),
                      Splice(content, at, d))
      ensures v'.GoodBlock(k) && forall j :: j != k ==> (v'.GoodBlock(j) <==> GoodBlock(j))
    {
      forall j: nat | j < |sums| && j != k
        ensures v'.GoodBlock(j) <==> GoodBlock(j)
      {
        Inside(size, |sums|, |content|, j);
        AtMonotone(size, j + 1, k);
        AtMonotone(size, k + 1, j);
        OtherContent(size, content, at, d, j);
      }
    }

    /** Block k is damaged and holds position `pos`. */
    ghost predicate BadAt(pos: nat, k: nat)
    {
      At(size, k) <= pos < At(size, k + 1) && !GoodBlock(k)
    }

    /** The blocks from the one that holds `offset` up to `seen` are good and hold all of the n bytes
        behind `offset`. */
    ghost predicate Passed(offset: nat, n: nat, first: nat, seen: nat)
    {
      && At(size, first) <= offset < At(size, first + 1)
      && first <= seen
      && (n > 0 ==> offset + n <= At(size, seen))
      && forall j :: first <= j < seen ==> GoodBlock(j)
    }

    lemma {:induction false} PassOn(offset: nat, n: nat, nb: nat, first: nat, seen: nat, k: nat)
      requires size > 0 && Passed(offset, n, first, seen)
      requires At(size, k) <= offset + n < At(size, k + 1) && offset + n + nb <= At(size, k + 1)
      requires GoodBlock(k)
      ensures Passed(offset, n + nb, first, k + 1) && first < k + 1
    {
      AtMonotone(size, k + 1, first);
      AtMonotone(size, seen + 1, k);
      AtMonotone(size, first + 1, k);
    }

    lemma {:induction false} StopAt(offset: nat, len: nat, n: nat, first: nat, seen: nat, k: nat)
      requires size > 0 && Passed(offset, n, first, seen) && n < len
      requires BadAt(offset + n, k)
      ensures DamagedAt(offset, len, n)
    {
      StopIndex(size, offset, n, first, seen, k);
      assert Touched(size, offset, len, k);
      forall j: nat | j < k && Touched(size, offset, len, j)
        ensures GoodBlock(j)
      {
        AtMonotone(size, j + 1, first);
      }
    }

    /** The block k behind the first n bytes, when it is none of those seen, starts right there. */
    static lemma {:induction false} StopIndex(size: nat, offset: nat, n: nat, first: nat, seen: nat, k: nat)
      requires size > 0 && At(size, first) <= offset < At(size, first + 1) && first <= seen
      requires n > 0 ==> offset + n <= At(size, seen)
      requires At(size, k) <= offset + n < At(size, k + 1) && !(first <= k < seen)
      ensures k <= seen && n == if At(size, k) <= offset then 0 else At(size, k) - offset
    {
      AtMonotone(size, k + 1, first);
      AtMonotone(size, seen, k);
      AtMonotone(size, seen + 1, k);
      AtMonotone(size, first + 1, k);
    }

    lemma {:induction false} DamagedNotGood(offset: nat, len: nat, n: nat)
      requires DamagedAt(offset, len, n)
      ensures !TouchedGood(offset, len)
    {}

    lemma {:induction false} AllPassed(offset: nat, len: nat, n: nat, first: nat, seen: nat)
      requires Covered() && Passed(offset, n, first, seen)
      requires n == len || offset + n == |content|
      requires 0 < len ==> first < seen
      ensures TouchedGood(offset, len)
    {
      forall k: nat | k < |sums| && Touched(size, offset, len, k)
        ensures GoodBlock(k)
      {
        Inside(size, |sums|, |content|, k);
        AtMonotone(size, k + 1, first);
        AtMonotone(size, seen, k);
        AtMonotone(size, first + 1, k);
      }
    }

  }
}

/** The file with checksums: reads and writes at content offsets, on top of a raw file. */
module ChecksumFile {
  import opened Arithmetic
  import opened Bytes
  import opened ChecksumLayout

  datatype Err = NoError | EOF | ChecksumNotMatch

  /** The file underneath, as the operating system provides it. */
  class RawFile {
    var bytes: seq<byte>

    constructor ()
      ensures bytes == []
    {
      bytes := [];
    }

    method ReadAt(n: nat, offset: nat) returns (data: seq<byte>, eof: bool)
      ensures data == if offset <= |bytes| then bytes[offset..Min(offset + n, |bytes|)] else []
      ensures eof <==> |data| < n
    {
      data := if offset <= |bytes| then bytes[offset..Min(offset + n, |bytes|)] else [];
      eof := |data| < n;
    }

    /** Writing behind the end fills the gap with zeros. */
    method WriteAt(data: seq<byte>, offset: nat)
      modifies this
      ensures offset <= old(|bytes|) ==> bytes == Splice(old(bytes), offset, data)
      ensures offset > old(|bytes|) ==> bytes == old(bytes) + seq(offset - old(|bytes|), _ => 0) + data
    {
      if offset <= |bytes| {
        bytes := Splice(bytes, offset, data);
      } else {
        bytes := bytes + seq(offset - |bytes|, _ => 0) + data;
      }
    }
  }

  datatype BlockRead = Data(data: seq<byte>, eof: bool) | Corrupt

  class File {
    const underlying: RawFile
    const size: nat
    const crc: Crc
    var contentOffset: int
    ghost var view: View

    ghost predicate Valid()
      reads this, underlying
    {
      && size > 0 && view.size == size && view.crc == crc
      && Laid(size, underlying.bytes, view.sums, view.content)
    }

    /** A new empty file. */
    constructor (underlying: RawFile, blockContentSize: nat, crc: Crc)
      requires blockContentSize > 0 && underlying.bytes == []
      ensures Valid() && view.Intact() && view.content == [] && contentOffset == 0
      ensures this.underlying == underlying && size == blockContentSize && this.crc == crc
    {
      this.underlying, this.size, this.crc := underlying, blockContentSize, crc;
      contentOffset, view := 0, View(crc, blockContentSize, [], []);
    }

    /** An existing file: any bytes that are laid out in blocks, damaged or not. */
    constructor Open(underlying: RawFile, blockContentSize: nat, crc: Crc, ghost sums: seq<uint32>,
                     ghost content: seq<byte>)
      requires blockContentSize > 0 && Laid(blockContentSize, underlying.bytes, sums, content)
      ensures Valid() && view.sums == sums && view.content == content && contentOffset == 0
      ensures this.underlying == underlying && size == blockContentSize && this.crc == crc
    {
      this.underlying, this.size, this.crc := underlying, blockContentSize, crc;
      contentOffset, view := 0, View(crc, blockContentSize, sums, content);
    }

    method ReadBlock(offset: nat, ghost k: nat) returns (r: BlockRead)
      requires Valid() && k <= |view.sums| && offset == RawAt(size, k)
      requires k == |view.sums| ==> At(size, k) == |view.content|
      ensures k == |view.sums| ==> r == Data([], true)
      ensures k < |view.sums| ==> At(size, k) < |view.content|
      ensures k < |view.sums| && view.GoodBlock(k) ==>
        r == Data(BlockData(size, view.content, k), |view.content| < At(size, k + 1))
      ensures k < |view.sums| && !view.GoodBlock(k) ==> r == Corrupt
    {
      var raw, eof := underlying.ReadAt(size + CHECKSUM_SIZE, offset);
      if k < |view.sums| {
        assert Stored(size, underlying.bytes, view.sums, view.content, k);
        Inside(size, |view.sums|, |view.content|, k);
        SumParts(view.sums[k], BlockData(size, view.content, k));
        assert raw == Le(view.sums[k], CHECKSUM_SIZE) + BlockData(size, view.content, k);
      }
      if |raw| < CHECKSUM_SIZE {
        return Data(raw, eof);
      }
      var sum := FromLe(raw[..CHECKSUM_SIZE]);
      var data := raw[CHECKSUM_SIZE..];
      if sum != crc(data) {
        return Corrupt;
      }
      return Data(data, eof);
    }

    /** The block that holds content position `pos`, and what it has from there on. */
    method BlockAt(pos: nat) returns (offset: nat, o: nat, r: BlockRead, ghost k: nat)
      requires Valid() && pos <= |view.content|
      ensures pos == At(size, k) + o && o < size && k <= |view.sums| && offset == RawAt(size, k)
      ensures k == |view.sums| ==> o == 0
      ensures r.Corrupt? <==> !view.GoodBlock(k)
      ensures r.Data? ==> r.data == BlockData(size, view.content, k) && (r.eof <==> |view.content| < At(size, k + 1))
    {
      offset, o := pos / size * (size + CHECKSUM_SIZE), pos % size;
      BlockOf(size, pos);
      k := pos / size;
      RawAtIsProduct(size, k);
      Locate(size, |view.sums|, |view.content|, k, o);
      r := ReadBlock(offset, k);
    }

    /** Serves the part of a read that falls into one block: up to `room` bytes of what the block
        that holds content position `pos` has from there on. */
    method ReadSome(room: nat, pos: nat) returns (out: seq<byte>, err: Err, ghost k: nat)
      requires Valid() && room > 0 && pos <= |view.content|
      ensures At(size, k) <= pos < At(size, k + 1)
      ensures err == ChecksumNotMatch <==> !view.GoodBlock(k)
      ensures err == ChecksumNotMatch ==> out == []
      ensures |out| <= room && pos + |out| <= At(size, k + 1) && IsSlice(view.content, pos, out)
      ensures err != ChecksumNotMatch ==> (out == [] ==> pos == |view.content|)
      ensures err != ChecksumNotMatch ==>
        (err == EOF <==> out == [] || (pos + |out| == |view.content| && view.EndsShort()))
    {
      var _, o, r, k' := BlockAt(pos);
      k := k';
      if r.Corrupt? {
        return [], ChecksumNotMatch, k;
      }
      var data := r.data[o..];
      var nb := Min(|data|, room);
      SliceOfSlice(view.content, At(size, k), Min(At(size, k + 1), |view.content|), o, nb);
      out := data[..nb];
      err := if r.eof && nb == |data| then EOF else NoError;
      if nb > 0 && pos + nb == |view.content| {
        view.EndOfContent(k, pos, nb);
      }
    }

    /** Reads into a buffer of length `len` from content position `offset` on: all that the content
        has there, up to the length of the buffer, and EOF when the buffer could not be filled, or was
        filled by the last byte of a short last block. A damaged block among those touched stops the
        read just before it. */
    method ReadAt(len: nat, offset: nat) returns (out: seq<byte>, err: Err)
      requires Valid() && offset <= |view.content|
      ensures IsSlice(view.content, offset, out)
      ensures err != ChecksumNotMatch ==> |out| == Min(len, |view.content| - offset)
      ensures err != ChecksumNotMatch ==>
        (err == EOF <==>
          len > 0 && (offset + len > |view.content| || (offset + len == |view.content| && |view.content| % size != 0)))
      ensures err != ChecksumNotMatch <==> view.TouchedGood(offset, len)
      ensures err == ChecksumNotMatch ==> view.DamagedAt(offset, len, |out|)
    {
      ghost var first, seen, k;
      out, err, first, seen, k := ReadLoop(len, offset);
      EndMod(size, |view.sums|, |view.content|);
      if err == ChecksumNotMatch {
        view.StopAt(offset, len, |out|, first, seen, k);
        view.DamagedNotGood(offset, len, |out|);
      } else {
        view.AllPassed(offset, len, |out|, first, seen);
      }
    }

    /** The loop of ReadAt, with the blocks it went through: all from `first` up to `seen`, and the
        damaged block k that stopped it. */
    method ReadLoop(len: nat, offset: nat) returns (out: seq<byte>, err: Err, ghost first: nat, ghost seen: nat,
                    ghost k: nat)
      requires Valid() && offset <= |view.content|
      ensures |out| <= len && ReadSoFar(view, out, offset, first, seen)
      ensures err == ChecksumNotMatch ==> |out| < len && view.BadAt(offset + |out|, k)
      ensures err != ChecksumNotMatch && |out| < len ==> offset + |out| == |view.content| && err == EOF && first < seen
      ensures |out| == len ==> (err == EOF <==> AtShortEnd(view, out, offset))
    {
      out, err := [], NoError;
      first := FirstBlock(size, offset);
      seen, k := first, 0;
      while |out| < len
        invariant |out| <= len && ReadSoFar(view, out, offset, first, seen)
        invariant err == if AtShortEnd(view, out, offset) then EOF else NoError
        decreases len - |out|
      {
        var before := |out|;
        out, err, seen, k := ReadStep(len, offset, out, first, seen);
        if err == ChecksumNotMatch || |out| == before {
          return;
        }
      }
    }

    /** One round of the loop: it adds at least a byte, or it is the last one. */
    method ReadStep(len: nat, offset: nat, out: seq<byte>, ghost first: nat, ghost seen: nat)
      returns (out': seq<byte>, err: Err, ghost seen': nat, ghost k: nat)
      requires Valid() && |out| < len && ReadSoFar(view, out, offset, first, seen)
      ensures |out| <= |out'| <= len && ReadSoFar(view, out', offset, first, seen')
      ensures err == ChecksumNotMatch ==> out' == out && view.BadAt(offset + |out|, k)
      ensures err != ChecksumNotMatch ==> first < seen'
      ensures err != ChecksumNotMatch && |out'| > |out| ==>
        err == if AtShortEnd(view, out', offset) then EOF else NoError
      ensures err != ChecksumNotMatch && |out'| == |out| ==> err == EOF && offset + |out| == |view.content|
    {
      var part;
      part, err, k := ReadSome(len - |out|, offset + |out|);
      if err == ChecksumNotMatch {
        return out, err, seen, k;
      }
      view.PassOn(offset, |out|, |part|, first, seen, k);
      SliceOn(view.content, offset, out, part);
      out', seen' := out + part, k + 1;
    }

    /** Puts `data` and its checksum in the place of block k. */
    method PutBlock(offset: nat, data: seq<byte>, ghost k: nat, ghost pos: nat, ghost d: seq<byte>)
      requires Valid() && k <= |view.sums| && offset == RawAt(size, k)
      requires |d| > 0 && At(size, k) <= pos <= |view.content| && pos + |d| <= At(size, k + 1)
      requires k == |view.sums| ==> pos == At(size, k)
      requires At(size, k) <= |Splice(view.content, pos, d)| && data == BlockData(size, Splice(view.content, pos, d), k)
      modifies underlying, this`view
      ensures Valid()
      ensures view.content == Splice(old(view.content), pos, d) && SameButGood(old(view), view, k)
    {
      var sum := crc(data);
      BlockWritten(size, underlying.bytes, view.sums, view.content, k, pos, d, sum);
      SpliceTwice(underlying.bytes, offset, Le(sum, CHECKSUM_SIZE), data);
      underlying.WriteAt(Le(sum, CHECKSUM_SIZE), offset);
      underlying.WriteAt(data, offset + CHECKSUM_SIZE);
      ghost var v := view;
      view := View(crc, size, PutSum(v.sums, k, sum), Splice(v.content, pos, d));
      v.OnlyBlock(view, k, pos, d);
    }

    /** Serves the part of a write that falls into the block that holds content position `pos`:
        overwrites what the block has from there on, or extends the block when it ends there. */
    method WriteSome(buf: seq<byte>, pos: nat) returns (nb: nat, err: Err, ghost k: nat)
      requires Valid() && buf != [] && pos <= |view.content|
      modifies underlying, this`view
      ensures Valid() && At(size, k) <= pos < At(size, k + 1) && err != EOF
      ensures err == ChecksumNotMatch <==> !old(view).GoodBlock(k)
      ensures err == ChecksumNotMatch ==> view == old(view)
      ensures err == NoError ==> 0 < nb <= |buf| && pos + nb <= At(size, k + 1)
      ensures err == NoError ==> view.content == Splice(old(view.content), pos, buf[..nb])
      ensures err == NoError ==> SameButGood(old(view), view, k)
    {
      var offset, o, r, k' := BlockAt(pos);
      k := k';
      if r.Corrupt? {
        return 0, ChecksumNotMatch, k;
      }
      var data;
      data, nb := Overlay(size, r.data, o, buf);
      SpliceBlock(size, view.content, k, o, buf[..nb]);
      PutBlock(offset, data, k, pos, buf[..nb]);
      err := NoError;
    }

    /** Writes `buf` at content position `offset`: the content is spliced, damage elsewhere stays as it
        was and what was undamaged stays so. A damaged block among those touched stops the write there,
        and the write reports no bytes. */
    method WriteAt(buf: seq<byte>, offset: nat) returns (n: nat, err: Err)
      requires Valid() && offset <= |view.content|
      modifies underlying, this`view
      ensures Valid() && err != EOF
      ensures forall j :: old(view).GoodBlock(j) ==> view.GoodBlock(j)
      ensures err == NoError <==> old(view).TouchedGood(offset, |buf|)
      ensures err == NoError ==> n == |buf| && view.content == Splice(old(view.content), offset, buf)
      ensures err == ChecksumNotMatch ==> n == 0 && exists m :: WriteDamaged(old(view), view, buf, offset, m)
    {
      ghost var v := view;
      ghost var first, seen, k;
      n, err, first, seen, k := WriteLoop(buf, offset);
      if err == ChecksumNotMatch {
        WriteStopped(v, view, buf, offset, n, first, seen, k);
        n := 0;
      } else {
        assert buf[..n] == buf;
        v.AllPassed(offset, |buf|, n, first, seen);
      }
    }

    /** The loop of WriteAt, with the blocks it went through and the damaged block k that stopped it. */
    method WriteLoop(buf: seq<byte>, offset: nat) returns (n: nat, err: Err, ghost first: nat, ghost seen: nat,
                     ghost k: nat)
      requires Valid() && offset <= |view.content|
      modifies underlying, this`view
      ensures Valid() && err != EOF && n <= |buf|
      ensures WrittenSoFar(old(view), view, buf, offset, n, first, seen)
      ensures err == NoError ==> n == |buf|
      ensures err == ChecksumNotMatch ==> n < |buf| && view.BadAt(offset + n, k)
    {
      n, err := 0, NoError;
      first := FirstBlock(size, offset);
      seen, k := first, 0;
      ghost var v := view;
      assert v.content == Splice(v.content, offset, buf[..0]);
      while n < |buf|
        invariant Valid() && n <= |buf| && err == NoError
        invariant WrittenSoFar(v, view, buf, offset, n, first, seen)
        decreases |buf| - n
      {
        n, err, seen, k := WriteStep(buf, offset, n, v, first, seen);
        if err == ChecksumNotMatch {
          return;
        }
      }
    }

    /** One round of the loop. */
    method WriteStep(buf: seq<byte>, offset: nat, n: nat, ghost v: View, ghost first: nat, ghost seen: nat)
      returns (n': nat, err: Err, ghost seen': nat, ghost k: nat)
      requires Valid() && offset <= |v.content| && n < |buf| && v.size == size
      requires WrittenSoFar(v, view, buf, offset, n, first, seen)
      modifies underlying, this`view
      ensures Valid() && err != EOF && n' <= |buf|
      ensures WrittenSoFar(v, view, buf, offset, n', first, seen')
      ensures err == NoError ==> n < n'
      ensures err == ChecksumNotMatch ==> n' == n && view.BadAt(offset + n, k)
    {
      ghost var mid := view;
      var nb;
      nb, err, k := WriteSome(buf[n..], offset + n);
      if err == ChecksumNotMatch {
        return n, err, seen, k;
      }
      WrittenOn(v, mid, view, buf, offset, n, nb, first, seen, k);
      n', seen' := n + nb, k + 1;
    }

    /** Where the file's own offset may be. */
    ghost predicate InRange()
      reads this
    {
      0 <= contentOffset <= |view.content|
    }

    method Read(len: nat) returns (out: seq<byte>, err: Err)
      requires Valid() && InRange()
      modifies this`contentOffset
      ensures Valid() && InRange() && contentOffset == old(contentOffset) + |out|
      ensures IsSlice(view.content, old(contentOffset), out)
      ensures err != ChecksumNotMatch ==> |out| == Min(len, |view.content| - old(contentOffset))
      ensures err != ChecksumNotMatch ==>
        var end := old(contentOffset) + len;
        err == EOF <==> len > 0 && (end > |view.content| || (end == |view.content| && |view.content| % size != 0))
      ensures err != ChecksumNotMatch <==> view.TouchedGood(old(contentOffset), len)
    {
      out, err := ReadAt(len, contentOffset);
      contentOffset := contentOffset + |out|;
    }

    method Write(buf: seq<byte>) returns (n: nat, err: Err)
      requires Valid() && InRange()
      modifies underlying, this`view, this`contentOffset
      ensures Valid() && err != EOF && contentOffset == old(contentOffset) + n
      ensures forall j :: old(view).GoodBlock(j) ==> view.GoodBlock(j)
      ensures err == NoError <==> old(view).TouchedGood(old(contentOffset), |buf|)
      ensures err == NoError ==>
        InRange() && n == |buf| && view.content == Splice(old(view.content), old(contentOffset), buf)
      ensures err == ChecksumNotMatch ==>
        n == 0 && exists m :: WriteDamaged(old(view), view, buf, old(contentOffset), m)
    {
      n, err := WriteAt(buf, contentOffset);
      contentOffset := contentOffset + n;
    }

    /** Moves the offset; the size of the content is computed from the size of the file, and the
        offset is kept inside it. */
    method Seek(offset: int, whence: Whence) returns (pos: int)
      requires Valid()
      modifies this`contentOffset
      ensures Valid() && InRange() && pos == contentOffset
      ensures
        var target := if whence == SeekStart then offset
                      else if whence == SeekEnd then |view.content| + offset
                      else if whence == SeekCurrent then old(contentOffset) + offset
                      else old(contentOffset);
        pos == if target < 0 then 0 else if target > |view.content| then |view.content| else target
    {
      var fileSize := |underlying.bytes|;
      var contentSize := fileSize - CHECKSUM_SIZE * CeilingDiv(fileSize, size + CHECKSUM_SIZE);
      ContentSize(size, |view.sums|, |view.content|);
      match whence {
        case SeekStart => contentOffset := offset;
        case SeekCurrent => contentOffset := contentOffset + offset;
        case SeekEnd => contentOffset := contentSize + offset;
        case SeekOther =>
      }
      if contentOffset < 0 {
        contentOffset := 0;
      }
      if contentOffset > contentSize {
        contentOffset := contentSize;
      }
      pos := contentOffset;
    }

    ghost function AsFlat(): Flat
      reads this
    {
      Flat(view.content, contentOffset)
    }

    /** On an undamaged file every call does what it does to a flat array with an offset. */
    method Perform(op: Op) returns (r: Res)
      requires Valid() && view.Intact() && InRange() && OpInRange(AsFlat(), op)
      modifies underlying, this`view, this`contentOffset
      ensures Valid() && view.Intact() && InRange()
      ensures (AsFlat(), r) == FlatStep(size, old(AsFlat()), op)
    {
      IntactGood(view);
      match op {
        case DoRead(len) =>
          var out, err := Read(len);
          r := Got(out, err == EOF);
        case DoReadAt(len, at) =>
          var out, err := ReadAt(len, at);
          r := Got(out, err == EOF);
        case DoWrite(buf) =>
          var n, err := Write(buf);
          r := Wrote(n);
        case DoWriteAt(buf, at) =>
          var n, err := WriteAt(buf, at);
          r := Wrote(n);
        case DoSeek(offset, whence) =>
          var pos := Seek(offset, whence);
          r := Moved(pos);
      }
      GoodIntact(view);
    }

    /** Any sequence of calls on an undamaged file behaves like the same calls on a flat array. */
    method PerformAll(ops: seq<Op>) returns (rs: seq<Res>)
      requires Valid() && view.Intact() && InRange() && AllInRange(size, AsFlat(), ops)
      modifies underlying, this`view, this`contentOffset
      ensures Valid() && view.Intact() && InRange()
      ensures (AsFlat(), rs) == FlatRun(size, old(AsFlat()), ops)
      decreases |ops|
    {
      if ops == [] {
        return [];
      }
      var r := Perform(ops[0]);
      var rest := PerformAll(ops[1..]);
      rs := [r] + rest;
    }
  }

  // ---- The flat array ----

  datatype Whence = SeekStart | SeekCurrent | SeekEnd | SeekOther

  function Target(length: nat, pos: int, offset: int, whence: Whence): int {
    match whence
    case SeekStart => offset
    case SeekCurrent => pos + offset
    case SeekEnd => length + offset
    case SeekOther => pos
  }

  function Clamp(x: int, hi: nat): nat {
    if x < 0 then 0 else if x > hi then hi else x
  }

  /** A byte array with a current offset. */
  datatype Flat = Flat(data: seq<byte>, pos: int)

  datatype Op =
    | DoRead(len: nat) | DoReadAt(len: nat, at: nat)
    | DoWrite(buf: seq<byte>) | DoWriteAt(buf: seq<byte>, at: nat)
    | DoSeek(offset: int, whence: Whence)

  datatype Res = Got(out: seq<byte>, eof: bool) | Wrote(n: nat) | Moved(pos: int)

  /** Reads and writes start inside the content or at its end. */
  ghost predicate OpInRange(f: Flat, op: Op) {
    && 0 <= f.pos <= |f.data|
    && (op.DoReadAt? || op.DoWriteAt? ==> op.at <= |f.data|)
  }

  ghost function FlatStep(size: nat, f: Flat, op: Op): (Flat, Res)
    requires size > 0 && OpInRange(f, op)
  {
    match op
    case DoRead(len) =>
      var end := Min(f.pos + len, |f.data|);
      (Flat(f.data, end), Got(f.data[f.pos..end], ReachesEnd(size, |f.data|, f.pos, len)))
    case DoReadAt(len, at) =>
      (f, Got(f.data[at..Min(at + len, |f.data|)], ReachesEnd(size, |f.data|, at, len)))
    case DoWrite(buf) =>
      (Flat(Splice(f.data, f.pos, buf), f.pos + |buf|), Wrote(|buf|))
    case DoWriteAt(buf, at) =>
      (Flat(Splice(f.data, at, buf), f.pos), Wrote(|buf|))
    case DoSeek(offset, whence) =>
      var pos := Clamp(Target(|f.data|, f.pos, offset, whence), |f.data|);
      (Flat(f.data, pos), Moved(pos))
  }

  ghost predicate AllInRange(size: nat, f: Flat, ops: seq<Op>)
    requires size > 0
    decreases |ops|
  {
    ops == [] || (OpInRange(f, ops[0]) && AllInRange(size, FlatStep(size, f, ops[0]).0, ops[1..]))
  }

  ghost function FlatRun(size: nat, f: Flat, ops: seq<Op>): (Flat, seq<Res>)
    requires size > 0 && AllInRange(size, f, ops)
    decreases |ops|
  {
    if ops == [] then (f, [])
    else
      var (f', r) := FlatStep(size, f, ops[0]);
      var (f'', rs) := FlatRun(size, f', ops[1..]);
      (f'', [r] + rs)
  }

  lemma {:induction false} IntactGood(v: View)
    requires v.Intact()
    ensures forall k :: v.GoodBlock(k)
    ensures forall offset, len :: v.TouchedGood(offset, len)
  {}

  lemma {:induction false} GoodIntact(v: View)
    requires forall k :: v.GoodBlock(k)
    ensures v.Intact()
  {
    forall k | 0 <= k < |v.sums|
      ensures Good(v.crc, v.size, v.sums, v.content, k)
    {
      assert v.GoodBlock(k);
    }
  }

  /** Lays `buf` over a block's data from `o` on, extending the data first when it ends there. */
  method Overlay(size: nat, data: seq<byte>, o: nat, buf: seq<byte>) returns (data': seq<byte>, nb: nat)
    requires o <= |data| <= size && o < size && buf != []
    ensures 0 < nb <= |buf| && o + nb <= size && (o + nb <= |data| || o == |data|)
    ensures data' == Splice(data, o, buf[..nb])
  {
    data' := data;
    if o == |data| {
      var nAppend := |buf|;
      if nAppend + |data| > size {
        nAppend := size - |data|;
      }
      data' := data + seq(nAppend, _ => 0);
    }
    nb := Min(|data'| - o, |buf|);
    data' := data'[..o] + buf[..nb] + data'[o + nb..];
  }

  /** What holds of the view `now` after n bytes of `buf` were written at `offset` over the view `v`. */
  ghost predicate WrittenSoFar(v: View, now: View, buf: seq<byte>, offset: nat, n: nat, first: nat, seen: nat)
    requires offset <= |v.content| && n <= |buf|
  {
    && now.content == Splice(v.content, offset, buf[..n])
    && v.Passed(offset, n, first, seen) && (n > 0 ==> first < seen)
    && (forall j :: v.GoodBlock(j) ==> now.GoodBlock(j))
    && (forall j :: j >= seen ==> (now.GoodBlock(j) <==> v.GoodBlock(j)))
  }

  lemma {:induction false} WrittenOn(v: View, mid: View, now: View, buf: seq<byte>, offset: nat, n: nat, nb: nat,
                                     first: nat, seen: nat, k: nat)
    requires v.size > 0 && offset <= |v.content| && n + nb <= |buf| && offset + n <= |mid.content|
    requires WrittenSoFar(v, mid, buf, offset, n, first, seen) && mid.GoodBlock(k) && SameButGood(mid, now, k)
    requires At(v.size, k) <= offset + n < At(v.size, k + 1) && offset + n + nb <= At(v.size, k + 1)
    requires now.content == Splice(mid.content, offset + n, buf[n..][..nb])
    ensures WrittenSoFar(v, now, buf, offset, n + nb, first, k + 1)
  {
    SpliceTwice(v.content, offset, buf[..n], buf[n..][..nb]);
    assert buf[..n] + buf[n..][..nb] == buf[..n + nb];
    AtMonotone(v.size, k + 1, first);
    assert v.GoodBlock(k);
    v.PassOn(offset, n, nb, first, seen, k);
    AtMonotone(v.size, seen + 1, k);
    AtMonotone(v.size, first + 1, k);
  }

  lemma {:induction false} WriteStopped(v: View, now: View, buf: seq<byte>, offset: nat, n: nat, first: nat,
                                        seen: nat, k: nat)
    requires v.size > 0 && offset <= |v.content| && n < |buf| && now.size == v.size
    requires WrittenSoFar(v, now, buf, offset, n, first, seen) && now.BadAt(offset + n, k)
    ensures !v.TouchedGood(offset, |buf|) && WriteDamaged(v, now, buf, offset, n)
  {
    assert v.BadAt(offset + n, k);
    v.StopAt(offset, |buf|, n, first, seen, k);
    v.DamagedNotGood(offset, |buf|, n);
  }

  /** The write stopped after m bytes, just before the first damaged block it touches. */
  ghost predicate WriteDamaged(v: View, now: View, buf: seq<byte>, offset: nat, m: nat)
    requires offset <= |v.content|
  {
    m < |buf| && v.DamagedAt(offset, |buf|, m) && now.content == Splice(v.content, offset, buf[..m])
  }

  /** Block k is good afterwards and all other blocks are as they were. */
  ghost predicate SameButGood(v: View, v': View, k: nat) {
    v'.GoodBlock(k) && forall j :: j != k ==> (v'.GoodBlock(j) <==> v.GoodBlock(j))
  }

  /** `d` is what `s` has from `at` on. */
  ghost predicate IsSlice(s: seq<byte>, at: nat, d: seq<byte>) {
    at + |d| <= |s| && d == s[at..at + |d|]
  }

  /** What holds after the bytes `out` were read from `offset` on. */
  ghost predicate ReadSoFar(v: View, out: seq<byte>, offset: nat, first: nat, seen: nat) {
    IsSlice(v.content, offset, out) && v.Passed(offset, |out|, first, seen) && (out != [] ==> first < seen)
  }

  ghost predicate AtShortEnd(v: View, out: seq<byte>, offset: nat) {
    out != [] && offset + |out| == |v.content| && v.EndsShort()
  }

  lemma {:induction false} SliceOn(s: seq<byte>, at: nat, d: seq<byte>, e: seq<byte>)
    requires IsSlice(s, at, d) && IsSlice(s, at + |d|, e)
    ensures IsSlice(s, at, d + e)
  {}

  lemma {:induction false} SliceOfSlice(s: seq<byte>, lo: nat, hi: nat, o: nat, nb: nat)
    requires lo <= hi <= |s| && lo + o + nb <= hi
    ensures s[lo..hi][o..][..nb] == s[lo + o..lo + o + nb]
  {}

  /** Reading back the two parts of a stored block. */
  lemma {:induction false} SumParts(sum: uint32, data: seq<byte>)
    ensures FromLe((Le(sum, CHECKSUM_SIZE) + data)[..CHECKSUM_SIZE]) == sum
    ensures (Le(sum, CHECKSUM_SIZE) + data)[CHECKSUM_SIZE..] == data
  {
    assert Pow256(4) == 256 * (256 * (256 * (256 * 1)));
    LeRoundTrip(sum, CHECKSUM_SIZE);
    assert (Le(sum, CHECKSUM_SIZE) + data)[..CHECKSUM_SIZE] == Le(sum, CHECKSUM_SIZE);
  }
}
