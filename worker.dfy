// The worker role of hog.c (run_worker): allocate 64 MiB chunks until the
// first refusal, touching one byte per page of every chunk it gets.

module Worker {

  newtype Byte = x: int | 0 <= x < 256

  const MiB: nat := 1024 * 1024
  /** The fixed allocation unit, `chunkSize` in run_worker. */
  const ChunkSize: nat := 64 * MiB

  /** The byte written into the pages of a chunk: `(char)(pattern & 0xFF)`. */
  function PatternByte(pattern: nat): (b: Byte)
    ensures (pattern - b as int) % 256 == 0
    ensures pattern < 256 ==> b as int == pattern
  {
    (pattern % 256) as Byte
  }

  // ---------------------------------------------------------------------
  // Page touch

  /** The offsets the page-touch loop visits from `off` on: off, off + p, ... below n. */
  function PageOffsetsFrom(off: nat, n: nat, p: nat): (r: seq<nat>)
    requires p > 0
    ensures forall j :: 0 <= j < |r| ==> off <= r[j] < n
    decreases n - off
  {
    if off < n then [off] + PageOffsetsFrom(off + p, n, p) else []
  }

  /** The offsets written into a buffer of `n` bytes with page size `p`. */
  function PageOffsets(n: nat, p: nat): (r: seq<nat>)
    requires p > 0
    ensures forall j :: 0 <= j < |r| ==> r[j] < n
  {
    PageOffsetsFrom(0, n, p)
  }

  /** `s` after writing `v` at every offset of `offs`, in order. */
  function Poke(s: seq<Byte>, offs: seq<nat>, v: Byte): (r: seq<Byte>)
    requires forall j :: 0 <= j < |offs| ==> offs[j] < |s|
    ensures |r| == |s|
    ensures forall k :: 0 <= k < |s| ==> r[k] == if k in offs then v else s[k]
    decreases |offs|
  {
    if offs == [] then s
    else Poke(s, offs[..|offs| - 1], v)[offs[|offs| - 1] := v]
  }

  lemma MulAtLeast(a: int, p: int)
    requires a >= 1 && p > 0
    ensures a * p >= p
  {
  }

  /** Euclidean division is determined by quotient and remainder. */
  lemma DivModUnique(x: int, p: int, q: int, r: int)
    requires p > 0 && 0 <= r < p && x == q * p + r
    ensures x / p == q && x % p == r
  {
    var q0, r0 := x / p, x % p;
    assert x == q0 * p + r0;
    if q0 > q { assert (q0 - q) * p == q0 * p - q * p; MulAtLeast(q0 - q, p); }
    if q > q0 { assert (q - q0) * p == q * p - q0 * p; MulAtLeast(q - q0, p); }
  }

  lemma DivStep(x: nat, p: nat)
    requires p > 0
    ensures (x + p) / p == x / p + 1
  {
    var q, r := x / p, x % p;
    assert x + p == (q + 1) * p + r;
    DivModUnique(x + p, p, q + 1, r);
  }

  /** One more page: ceil(m / p) == 1 + ceil((m - p) / p), or 1 when m <= p. */
  lemma CeilStep(m: int, p: int)
    requires p > 0 && m > 0
    ensures (m + p - 1) / p == (if m > p then (m - p + p - 1) / p else 0) + 1
  {
    if m > p {
      DivStep(m - 1, p);
    } else {
      DivModUnique(m + p - 1, p, 1, m - 1);
    }
  }

  /** The loop writes ceil((n - off) / p) times, in increasing order, p bytes apart. */
  lemma {:induction false} PageOffsetsFromShape(off: nat, n: nat, p: nat)
    requires p > 0
    ensures |PageOffsetsFrom(off, n, p)| == if off < n then (n - off + p - 1) / p else 0
    ensures forall j :: 0 <= j < |PageOffsetsFrom(off, n, p)| ==>
              PageOffsetsFrom(off, n, p)[j] == off + j * p
    decreases n - off
  {
    if off < n {
      var r := PageOffsetsFrom(off, n, p);
      var rest := PageOffsetsFrom(off + p, n, p);
      assert r == [off] + rest;
      PageOffsetsFromShape(off + p, n, p);
      CeilStep(n - off, p);
      forall j | 1 <= j < |r|
        ensures r[j] == off + j * p
      {
        assert r[j] == rest[j - 1] == off + p + (j - 1) * p;
        assert (j - 1) * p + p == j * p;
      }
    }
  }

  lemma MulMonotone(a: int, b: int, p: int)
    requires p > 0 && a <= b
    ensures a * p <= b * p
  {
    if a < b {
      assert b * p - a * p == (b - a) * p;
      MulAtLeast(b - a, p);
    }
  }

  /** An offset j * p inside the buffer is among the first ceil(n / p) writes. */
  lemma BelowCeil(j: nat, n: nat, p: nat)
    requires p > 0 && j * p < n
    ensures j < (n + p - 1) / p
  {
    var q := (n - 1) / p;
    assert n - 1 == q * p + (n - 1) % p;
    if j > q {
      MulMonotone(q + 1, j, p);
      assert false;
    }
    DivStep(n - 1, p);
  }

  /** k is written exactly when it lies inside the buffer and on a page boundary. */
  lemma PageOffsetsMember(n: nat, p: nat, k: int)
    requires p > 0
    ensures k in PageOffsets(n, p) <==> 0 <= k < n && k % p == 0
  {
    var r := PageOffsets(n, p);
    PageOffsetsFromShape(0, n, p);
    if k in r {
      var j :| 0 <= j < |r| && r[j] == k;
      DivModUnique(k, p, j, 0);
    }
    if 0 <= k < n && k % p == 0 {
      var j := k / p;
      assert k == j * p;
      BelowCeil(j, n, p);
      assert r[j] == k;
    }
  }

  /** A buffer of n bytes gets exactly ceil(n / p) page writes, all inside it. */
  lemma PageWrites(n: nat, p: nat)
    requires p > 0
    ensures |PageOffsets(n, p)| == (n + p - 1) / p
    ensures forall j :: 0 <= j < |PageOffsets(n, p)| ==> PageOffsets(n, p)[j] == j * p < n
    ensures forall k :: k in PageOffsets(n, p) <==> 0 <= k < n && k % p == 0
  {
    PageOffsetsFromShape(0, n, p);
    if n == 0 {
      DivModUnique(p - 1, p, 0, p - 1);
    }
    forall k ensures k in PageOffsets(n, p) <==> 0 <= k < n && k % p == 0 {
      PageOffsetsMember(n, p, k);
    }
  }

  /** Touching a chunk sets exactly its page-aligned bytes to the pattern byte. */
  lemma TouchedChunk(s: seq<Byte>, p: nat, v: Byte)
    requires p > 0
    ensures forall j :: 0 <= j < |PageOffsets(|s|, p)| ==> PageOffsets(|s|, p)[j] < |s|
    ensures forall k :: 0 <= k < |s| ==>
              Poke(s, PageOffsets(|s|, p), v)[k] == if k % p == 0 then v else s[k]
  {
    PageWrites(|s|, p);
  }

  /** With the usual 4 KiB page a chunk takes 16384 writes. */
  lemma ChunkWritesWith4KiBPages()
    ensures |PageOffsets(ChunkSize, 4096)| == 16384
  {
    PageWrites(ChunkSize, 4096);
  }

  /**
   * The page-touch loop `for (off = 0; off < chunkSize; off += pageSize) c[off] = value`.
   * `written` is the sequence of offsets stored to, in order.
   */
  method TouchPages(c: array<Byte>, pageSize: nat, value: Byte) returns (ghost written: seq<nat>)
    requires pageSize > 0
    modifies c
    ensures written == PageOffsets(c.Length, pageSize)
    ensures forall j :: 0 <= j < |written| ==> written[j] < c.Length
    ensures c[..] == Poke(old(c[..]), written, value)
  {
    var off: nat := 0;
    written := [];
    while off < c.Length
      invariant written + PageOffsetsFrom(off, c.Length, pageSize) == PageOffsets(c.Length, pageSize)
      invariant forall j :: 0 <= j < |written| ==> written[j] < c.Length
      invariant c[..] == Poke(old(c[..]), written, value)
      decreases c.Length - off
    {
      c[off] := value;
      written := written + [off];
      off := off + pageSize;
    }
  }

  // ---------------------------------------------------------------------
  // Allocation loop

  /** How many allocations succeed before the first refusal (all of them if none is refused). */
  function LeadingGrants(grants: seq<bool>): (n: nat)
    ensures n <= |grants|
  {
    if grants == [] || !grants[0] then 0 else 1 + LeadingGrants(grants[1..])
  }

  /** Bytes held by a worker whose allocation outcomes are `grants`. */
  function Hogged(grants: seq<bool>): (bytes: nat)
    ensures bytes % ChunkSize == 0 && bytes / ChunkSize <= |grants|
  {
    LeadingGrants(grants) * ChunkSize
  }

  /** A freshly committed chunk reads as all zeros. */
  function ZeroChunk(): (z: seq<Byte>)
    ensures |z| == ChunkSize && forall k :: 0 <= k < |z| ==> z[k] == 0
  {
    seq(ChunkSize, _ => 0 as Byte)
  }

  /**
   * run_worker's allocation loop over a finite prefix `grants` of the VirtualAlloc outcomes
   * (true: a chunk was committed). `held` are the chunks the worker keeps resident.
   */
  method RunWorker(grants: seq<bool>, pageSize: nat)
    returns (total: nat, pattern: nat, attempts: nat, failed: bool, held: seq<array<Byte>>)
    requires pageSize > 0
    ensures pattern == LeadingGrants(grants)
    ensures total == pattern * ChunkSize
    ensures failed <==> pattern < |grants|
    ensures attempts == if failed then pattern + 1 else pattern
    ensures |held| == pattern
    ensures forall j, k :: 0 <= j < k < |held| ==> held[j] != held[k]
    ensures forall j :: 0 <= j < |held| ==>
              held[j].Length == ChunkSize &&
              held[j][..] == Poke(ZeroChunk(), PageOffsets(ChunkSize, pageSize), PatternByte(j))
  {
    total, pattern, attempts, failed, held := 0, 0, 0, false, [];
    var i := 0;
    while i < |grants|
      invariant i <= |grants|
      invariant !failed && pattern == attempts == i == |held|
      invariant LeadingGrants(grants) == i + LeadingGrants(grants[i..])
      invariant total == pattern * ChunkSize
      invariant forall j :: 0 <= j < |held| ==> fresh(held[j])
      invariant forall j, k :: 0 <= j < k < |held| ==> held[j] != held[k]
      invariant forall j :: 0 <= j < |held| ==>
                  held[j].Length == ChunkSize &&
                  held[j][..] == Poke(ZeroChunk(), PageOffsets(ChunkSize, pageSize), PatternByte(j))
    {
      attempts := attempts + 1;
      if !grants[i] {
        failed := true;
        break;
      }
      assert grants[i..][1..] == grants[i + 1..];
      var c := new Byte[ChunkSize](_ => 0);  // VirtualAlloc commits zeroed pages
      assert c[..] == ZeroChunk();
      ghost var w := TouchPages(c, pageSize, PatternByte(pattern));
      total := total + ChunkSize;
      held := held + [c];
      pattern := pattern + 1;
      i := i + 1;
    }
  }

  // ---------------------------------------------------------------------
  // Properties of a worker's run

  /** After the first refusal nothing more is allocated, whatever the later outcomes. */
  lemma {:induction false} FrozenAfterRefusal(grants: seq<bool>, later: seq<bool>)
    requires LeadingGrants(grants) < |grants|
    ensures LeadingGrants(grants + later) == LeadingGrants(grants)
    ensures Hogged(grants + later) == Hogged(grants)
  {
    if grants[0] {
      assert (grants + later)[1..] == grants[1..] + later;
      FrozenAfterRefusal(grants[1..], later);
    }
  }

  /** The hogged total never shrinks as the run goes on. */
  lemma {:induction false} HoggedMonotone(grants: seq<bool>, k: nat)
    requires k <= |grants|
    ensures LeadingGrants(grants[..k]) <= LeadingGrants(grants)
    ensures Hogged(grants[..k]) <= Hogged(grants)
  {
    if k > 0 && grants[0] {
      assert grants[..k][1..] == grants[1..][..k - 1];
      HoggedMonotone(grants[1..], k - 1);
    }
  }

  /** Every successful allocation adds exactly one chunk while no refusal has happened. */
  lemma {:induction false} HoggedGrows(grants: seq<bool>)
    requires LeadingGrants(grants) == |grants|
    ensures Hogged(grants + [true]) == Hogged(grants) + ChunkSize
    ensures Hogged(grants + [false]) == Hogged(grants)
  {
    if grants != [] {
      assert (grants + [true])[1..] == grants[1..] + [true];
      assert (grants + [false])[1..] == grants[1..] + [false];
      HoggedGrows(grants[1..]);
    }
  }

  /** Three chunks then a refusal: 192 MiB, frozen from then on. */
  lemma ThreeChunksThenRefusal(later: seq<bool>)
    ensures LeadingGrants([true, true, true, false] + later) == 3
    ensures Hogged([true, true, true, false] + later) == 192 * MiB
  {
    var g := [true, true, true, false];
    assert g[1..] == [true, true, false];
    assert g[1..][1..] == [true, false];
    assert g[1..][1..][1..] == [false];
    FrozenAfterRefusal(g, later);
  }
}
