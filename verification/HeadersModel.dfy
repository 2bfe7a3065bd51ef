/**
 Block headers as the headers pre-synchronisation sees them, and the sequences of headers
 it reasons about: linked chains, their work, and the one-bit commitments made to them.
 */
module HeadersModel {

  type Hash = int

  const HEADER_COMMITMENT_PERIOD: nat := 606
  const REDOWNLOAD_BUFFER_SIZE: nat := 14441
  const WORK_LIMIT: nat := 0x1_0000_0000_0000_0000_0000_0000_0000_0000_0000_0000_0000_0000_0000_0000_0000_0000

  datatype Header = Header(version: int, prev: Hash, merkleRoot: Hash, time: nat, bits: nat, nonce: nat)

  const NULL_HEADER := Header(0, 0, 0, 0, 0, 0)

  /** A header without the hash of its predecessor. */
  datatype CompressedHeader = CompressedHeader(version: int, merkleRoot: Hash, time: nat, bits: nat, nonce: nat)

  function Compress(h: Header): CompressedHeader {
    CompressedHeader(h.version, h.merkleRoot, h.time, h.bits, h.nonce)
  }

  function FullHeader(c: CompressedHeader, prev: Hash): Header {
    Header(c.version, prev, c.merkleRoot, c.time, c.bits, c.nonce)
  }

  /** The 256-bit addition of work. */
  function AddWork(work: nat, proof: nat): nat { (work + proof) % WORK_LIMIT }

  /** What the sync takes from elsewhere: the block hash, the salted commitment bit, the
      difficulty rule, the proof of a target, and the secret offset of the committed heights. */
  datatype Env = Env(
    hashOf: Header -> Hash,
    bit: Hash -> bool,
    permitted: (nat, nat, nat) -> bool,
    proof: nat -> nat,
    offset: nat)
  {
    predicate Commits(height: nat) { height % HEADER_COMMITMENT_PERIOD == offset }

    function BitOf(h: Header): bool { bit(hashOf(h)) }

    /** The commitment bits of headers that follow height `below`. */
    function CommitBits(hs: seq<Header>, below: nat): seq<bool> {
      if hs == [] then [] else
        CommitBits(hs[..|hs| - 1], below) +
        (if Commits(below + |hs|) then [BitOf(hs[|hs| - 1])] else [])
    }

    function TipHash(hs: seq<Header>, start: Hash): Hash {
      if hs == [] then start else hashOf(hs[|hs| - 1])
    }

    function TipBits(hs: seq<Header>, start: nat): nat {
      if hs == [] then start else hs[|hs| - 1].bits
    }

    /** Each header names the hash of the one before it. */
    predicate Linked(hs: seq<Header>, start: Hash) {
      hs != [] ==> var init := hs[..|hs| - 1];
                   Linked(init, start) && hs[|hs| - 1].prev == TipHash(init, start)
    }

    /** Each difficulty step is permitted from the header really before it. */
    predicate DifficultyOk(hs: seq<Header>, startBits: nat, below: nat) {
      hs != [] ==> var init := hs[..|hs| - 1];
                   DifficultyOk(init, startBits, below) &&
                   permitted(below + |hs|, TipBits(init, startBits), hs[|hs| - 1].bits)
    }

    /** Accumulated work, modulo 2^256. */
    function WorkOf(hs: seq<Header>, start: nat): nat {
      if hs == [] then start else AddWork(WorkOf(hs[..|hs| - 1], start), proof(hs[|hs| - 1].bits))
    }

    function TotalProof(hs: seq<Header>): nat {
      if hs == [] then 0 else TotalProof(hs[..|hs| - 1]) + proof(hs[|hs| - 1].bits)
    }

    /** Some accepted header brought the work up to the requirement. */
    predicate Reached(hs: seq<Header>, start: nat, required: nat) {
      hs != [] && (Reached(hs[..|hs| - 1], start, required) || WorkOf(hs, start) >= required)
    }

    /** The headers a buffer stands for, given the hash before its first one. */
    function Rebuilt(cs: seq<CompressedHeader>, prev: Hash): seq<Header> {
      if cs == [] then [] else
        var before := Rebuilt(cs[..|cs| - 1], prev);
        before + [FullHeader(cs[|cs| - 1], TipHash(before, prev))]
    }

    lemma {:induction false} RebuiltLength(cs: seq<CompressedHeader>, prev: Hash)
      ensures |Rebuilt(cs, prev)| == |cs|
    {
      if cs != [] { RebuiltLength(cs[..|cs| - 1], prev); }
    }

    /** Compressing a linked chain loses nothing. */
    lemma {:induction false} RebuiltLinked(hs: seq<Header>, prev: Hash)
      requires Linked(hs, prev)
      ensures Rebuilt(seq(|hs|, i requires 0 <= i < |hs| => Compress(hs[i])), prev) == hs
    {
      if hs != [] {
        var n := |hs| - 1;
        var cs := seq(|hs|, i requires 0 <= i < |hs| => Compress(hs[i]));
        var init := hs[..n];
        assert cs[..n] == seq(n, i requires 0 <= i < n => Compress(init[i]));
        RebuiltLinked(init, prev);
      }
    }

    /** Taking the first header off a buffer. */
    lemma {:induction false} RebuiltFront(cs: seq<CompressedHeader>, prev: Hash)
      requires cs != []
      ensures var first := FullHeader(cs[0], prev);
              Rebuilt(cs, prev) == [first] + Rebuilt(cs[1..], hashOf(first))
    {
      var first, n := FullHeader(cs[0], prev), |cs| - 1;
      if n > 0 {
        var init := cs[..n];
        RebuiltFront(init, prev);
        assert init[1..] == cs[1..][..n - 1];
        var rest := Rebuilt(init[1..], hashOf(first));
        assert Rebuilt(cs[1..], hashOf(first)) == rest + [FullHeader(cs[n], TipHash(rest, hashOf(first)))];
      }
    }

    /** Each notion above, one header further. */
    lemma Snoc(hs: seq<Header>, h: Header, startHash: Hash, startBits: nat, start: nat, required: nat, below: nat)
      ensures Linked(hs + [h], startHash) <==> Linked(hs, startHash) && h.prev == TipHash(hs, startHash)
      ensures DifficultyOk(hs + [h], startBits, below) <==>
              DifficultyOk(hs, startBits, below) && permitted(below + |hs| + 1, TipBits(hs, startBits), h.bits)
      ensures WorkOf(hs + [h], start) == AddWork(WorkOf(hs, start), proof(h.bits))
      ensures TotalProof(hs + [h]) == TotalProof(hs) + proof(h.bits)
      ensures Reached(hs + [h], start, required) <==>
              Reached(hs, start, required) || WorkOf(hs + [h], start) >= required
      ensures CommitBits(hs + [h], below) ==
              CommitBits(hs, below) + if Commits(below + |hs| + 1) then [BitOf(h)] else []
    {
      assert (hs + [h])[..|hs|] == hs;
    }

    /** Linked is what it says at every header. */
    lemma {:induction false} LinkedAt(hs: seq<Header>, start: Hash, i: nat)
      requires Linked(hs, start) && i < |hs|
      ensures hs[i].prev == TipHash(hs[..i], start)
    {
      if i < |hs| - 1 {
        LinkedAt(hs[..|hs| - 1], start, i);
        assert hs[..|hs| - 1][..i] == hs[..i];
      }
    }

    lemma {:induction false} LinkedPrefix(hs: seq<Header>, start: Hash, startBits: nat, below: nat, n: nat)
      requires n <= |hs|
      ensures Linked(hs, start) ==> Linked(hs[..n], start)
      ensures DifficultyOk(hs, startBits, below) ==> DifficultyOk(hs[..n], startBits, below)
    {
      if n < |hs| {
        LinkedPrefix(hs[..|hs| - 1], start, startBits, below, n);
        assert hs[..|hs| - 1][..n] == hs[..n];
      } else {
        assert hs[..n] == hs;
      }
    }

    /** The bits of a shorter chain begin the bits of a longer one. */
    lemma {:induction false} CommitBitsPrefix(hs: seq<Header>, n: nat, below: nat)
      requires n <= |hs|
      ensures CommitBits(hs[..n], below) <= CommitBits(hs, below)
    {
      if n < |hs| {
        var init := hs[..|hs| - 1];
        CommitBitsPrefix(init, n, below);
        assert init[..n] == hs[..n];
      } else {
        assert hs[..n] == hs;
      }
    }

    lemma {:induction false} TotalProofPrefix(hs: seq<Header>, n: nat)
      requires n <= |hs|
      ensures TotalProof(hs[..n]) <= TotalProof(hs)
    {
      if n < |hs| {
        var init := hs[..|hs| - 1];
        TotalProofPrefix(init, n);
        assert init[..n] == hs[..n];
      } else {
        assert hs[..n] == hs;
      }
    }

    /** Without overflow the accumulated work is the plain sum, and it has reached the
        requirement as soon as its last value has. */
    lemma {:induction false} WorkWithoutOverflow(hs: seq<Header>, start: nat, required: nat)
      requires start + TotalProof(hs) < WORK_LIMIT
      ensures WorkOf(hs, start) == start + TotalProof(hs)
      ensures Reached(hs, start, required) <==> hs != [] && start + TotalProof(hs) >= required
    {
      if hs != [] {
        WorkWithoutOverflow(hs[..|hs| - 1], start, required);
      }
    }
  }
}
