/**
 Linear memory as the engine sees it: 4096-byte blocks inside 65536-byte pages, the table of
 block hashes, and the overlay of saved blocks on a base.
 */
module Blocks {
  import opened Bytes
  import opened Fnv

  /** Linear memory is a whole number of pages (section 4.2.8 of the WebAssembly Core Specification 1.0). */
  predicate IsMemory(m: seq<byte>) {
    |m| % 65536 == 0
  }

  function NumBlocks(m: seq<byte>): nat {
    |m| / 4096
  }

  function Block(m: seq<byte>, i: int): (b: seq<byte>)
    requires 0 <= i < NumBlocks(m)
    ensures |b| == 4096
  {
    m[i * 4096..i * 4096 + 4096]
  }

  /** Saved blocks by block index. */
  type BlockMap = map<int, seq<byte>>

  predicate FitBlocks(d: BlockMap) {
    forall i | i in d :: 0 <= i && |d[i]| <= 4096
  }

  predicate FullBlocks(d: BlockMap) {
    forall i | i in d :: 0 <= i && |d[i]| == 4096
  }

  function HashTable(m: seq<byte>): map<int, nat> {
    map i | 0 <= i < NumBlocks(m) :: Sum64(Block(m, i))
  }

  function Pages(n: nat): nat {
    (n + 65535) / 65536
  }

  /** `m` grown with zero bytes to a number of pages, unless it has as many. */
  function GrownTo(m: seq<byte>, pages: nat): (g: seq<byte>)
    ensures |g| >= |m| && g[..|m|] == m
    ensures IsMemory(m) ==> IsMemory(g)
    ensures |g| == if pages * 65536 > |m| then pages * 65536 else |m|
  {
    if pages * 65536 > |m| then m + Zeros(pages * 65536 - |m|) else m
  }

  /** `m` grown with zero bytes, page by page, until it holds `n` bytes. */
  function Grown(m: seq<byte>, n: nat): (g: seq<byte>)
    ensures |g| >= n && |g| >= |m| && g[..|m|] == m
    ensures IsMemory(m) ==> IsMemory(g)
    ensures |g| == if Pages(n) * 65536 > |m| then Pages(n) * 65536 else |m|
  {
    GrownTo(m, Pages(n))
  }

  function OverlaidByte(m: seq<byte>, d: BlockMap, k: nat): byte
    requires k < |m|
  {
    var i := k / 4096;
    if i in d && k - i * 4096 < |d[i]| then d[i][k - i * 4096] else m[k]
  }

  /** Every byte that a saved block covers comes from that block, every other byte from `m`. */
  function Overlay(m: seq<byte>, d: BlockMap): (r: seq<byte>)
    ensures |r| == |m|
  {
    seq(|m|, k requires 0 <= k < |m| => OverlaidByte(m, d, k))
  }

  /** The blocks already visited while iterating over a map. */
  function Only(d: BlockMap, keys: set<int>): BlockMap
    requires keys <= d.Keys
  {
    map k | k in keys :: d[k]
  }

  lemma NonemptyHasMember(s: set<int>)
    requires s != {}
    ensures exists i :: i in s
  {
    assert (forall i :: i !in s) ==> s == {};
  }

  /** The largest member, or 0: the scan starts from 0. */
  ghost function MaxIndex(s: set<int>): (r: int)
    ensures forall i | i in s :: i <= r
    ensures r == 0 || r in s
    ensures r >= 0
  {
    if s == {} then 0
    else
      NonemptyHasMember(s);
      var i :| i in s;
      var rest := MaxIndex(s - {i});
      assert forall j | j in s :: j == i || j in s - {i};
      if i > rest then i else rest
  }

  /** How many bytes memory needs before the blocks of `d` can be copied in. */
  ghost function Span(d: BlockMap): nat {
    (MaxIndex(d.Keys) + 1) * 4096
  }

  /** A full snapshot copied over the start of the freshly instantiated memory `init`. */
  function Rebase(init: seq<byte>, snapshot: Option<seq<byte>>): seq<byte> {
    match snapshot
    case Some(s) => if |s| > 0 then s + Grown(init, |s|)[|s|..] else init
    case None => init
  }

  /** The memory that a session starts from. */
  ghost function Restore(init: seq<byte>, snapshot: Option<seq<byte>>, d: BlockMap): seq<byte> {
    var base := Rebase(init, snapshot);
    if d == map[] then base else Overlay(Grown(base, Span(d)), d)
  }

  // ---------------------------------------------------------------- facts about blocks

  lemma SpanCovers(d: BlockMap, i: int)
    requires i in d
    ensures i * 4096 + 4096 <= Span(d)
  {
  }

  lemma ByteOfBlock(m: seq<byte>, k: nat)
    requires |m| % 4096 == 0 && k < |m|
    ensures k / 4096 < NumBlocks(m)
    ensures Block(m, k / 4096)[k - k / 4096 * 4096] == m[k]
  {
  }

  /** Memories are equal exactly when they have the same length and the same blocks. */
  lemma BlocksDetermineMemory(a: seq<byte>, b: seq<byte>)
    requires |a| % 4096 == 0 && |a| == |b|
    ensures a == b <==> forall i | 0 <= i < NumBlocks(a) :: Block(a, i) == Block(b, i)
  {
    if forall i | 0 <= i < NumBlocks(a) :: Block(a, i) == Block(b, i) {
      forall k | 0 <= k < |a| ensures a[k] == b[k] {
        ByteOfBlock(a, k);
        ByteOfBlock(b, k);
        assert Block(a, k / 4096) == Block(b, k / 4096);
      }
    }
  }

  lemma BlockOfOverlay(m: seq<byte>, d: BlockMap, i: int)
    requires FullBlocks(d) && 0 <= i < NumBlocks(m)
    ensures Block(Overlay(m, d), i) == if i in d then d[i] else Block(m, i)
  {
    var r := Overlay(m, d);
    var b := Block(r, i);
    var c := if i in d then d[i] else Block(m, i);
    forall j | 0 <= j < 4096 ensures b[j] == c[j] {
      assert r[i * 4096 + j] == OverlaidByte(m, d, i * 4096 + j);
      assert (i * 4096 + j) / 4096 == i;
    }
  }

  lemma BlockOfPrefix(a: seq<byte>, b: seq<byte>, i: int)
    requires |a| <= |b| && b[..|a|] == a && 0 <= i < NumBlocks(a)
    ensures Block(b, i) == Block(a, i)
  {
  }
}
