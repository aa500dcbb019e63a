/** What a peer accepts, of any transaction on any file: every check, and every byte of the result. */
module DeltaChecks {
  import opened BlockDelta

  predicate InBounds(s: Signature, size: nat) {
    s.size <= 67108864 && s.offset + s.size <= size
  }

  /** The block's file is there, has the block's size and its digest. */
  predicate Intact(digest: Digest, s: Signature, files: map<nat, Bytes>) {
    s.offset in files && |files[s.offset]| == s.size && digest(files[s.offset]) == s.digest
  }

  predicate IsGood(digest: Digest, s: Signature, files: map<nat, Bytes>, size: nat) {
    InBounds(s, size) && Intact(digest, s, files)
  }

  /** The byte at k after the blocks were written in their order over x. */
  function Laid(x: bv8, blocks: seq<Signature>, files: map<nat, Bytes>, k: nat): bv8 {
    if blocks == [] then x
    else
      var s := blocks[|blocks|-1];
      if s.offset in files && s.offset <= k < s.offset + |files[s.offset]| then files[s.offset][k - s.offset]
      else Laid(x, blocks[..|blocks|-1], files, k)
  }

  lemma {:induction false} LaidFirst(x: bv8, blocks: seq<Signature>, files: map<nat, Bytes>, k: nat)
    requires blocks != []
    ensures Laid(x, blocks, files, k) == Laid(Laid(x, [blocks[0]], files, k), blocks[1..], files, k)
  {
    if |blocks| > 1 {
      LaidFirst(x, blocks[..|blocks|-1], files, k);
      assert blocks[1..][..|blocks|-2] == blocks[..|blocks|-1][1..];
    } else {
      assert blocks == [blocks[0]] && blocks[1..] == [];
    }
  }

  lemma {:induction false} OverlayExactly(
    digest: Digest, file: Bytes, blocks: seq<Signature>, files: map<nat, Bytes>, size: nat)
    ensures var r := Overlay(digest, file, blocks, files, size);
            && (r.Applied? <==> forall s <- blocks :: IsGood(digest, s, files, size))
            && (r.Applied? ==> forall k: nat :: At(r.file, k) == Laid(At(file, k), blocks, files, k))
    decreases |blocks|
  {
    if blocks != [] {
      var s, rest := blocks[0], blocks[1..];
      assert forall b :: b in blocks <==> b == s || b in rest;
      if IsGood(digest, s, files, size) {
        var next := WriteAt(file, s.offset, files[s.offset]);
        OverlayExactly(digest, next, rest, files, size);
        forall k: nat ensures Laid(At(next, k), rest, files, k) == Laid(At(file, k), blocks, files, k) {
          LaidFirst(At(file, k), blocks, files, k);
          WrittenByte(file, s.offset, files[s.offset], k);
          assert [s][..0] == [];
        }
      }
    }
  }

  /** The peer's file as the transaction leaves it: cut or filled with zeros to the size, the blocks over it. */
  ghost predicate IsLaid(base: Bytes, t: Transaction, file: Bytes) {
    && |file| == t.instruction.size
    && forall k :: 0 <= k < |file| ==>
         file[k] == Laid(if k < |base| then base[k] else 0, t.instruction.blocks, t.files, k)
  }

  /** A transaction is installed if and only if it keeps the limits, every block is within bounds and intact,
      and the file it leaves has the digest it names; that file is installed. */
  lemma AcceptsExactly(blockDigest: Digest, fileDigest: Digest, base: Bytes, t: Transaction, file: Bytes)
    ensures Receive(blockDigest, fileDigest, base, t) == Applied(file) <==>
            && t.instruction.size <= 17179869184 && |t.instruction.blocks| <= 65536
            && (forall s <- t.instruction.blocks :: IsGood(blockDigest, s, t.files, t.instruction.size))
            && IsLaid(base, t, file) && fileDigest(file) == t.instruction.digest
  {
    var i := t.instruction;
    OverlayExactly(blockDigest, base, i.blocks, t.files, i.size);
    var r := Overlay(blockDigest, base, i.blocks, t.files, i.size);
    if r.Applied? {
      var laid := Truncate(r.file, i.size);
      assert IsLaid(base, t, laid);
      if IsLaid(base, t, file) { assert file == laid; }
    }
  }

  /** What is wrong decides the error: the limits first, then the first bad block, then the digest. */
  lemma RefusesExactly(blockDigest: Digest, fileDigest: Digest, base: Bytes, t: Transaction, n: nat)
    ensures var i, r := t.instruction, Receive(blockDigest, fileDigest, base, t);
            && (r == LimitsExceeded <==> i.size > 17179869184 || |i.blocks| > 65536)
            && (r != LimitsExceeded && n < |i.blocks| && !IsGood(blockDigest, i.blocks[n], t.files, i.size)
                && (forall s <- i.blocks[..n] :: IsGood(blockDigest, s, t.files, i.size)) ==>
                  r == if InBounds(i.blocks[n], i.size) then BadBlock else BadBounds)
            && (r == BadFile ==> forall s <- i.blocks :: IsGood(blockDigest, s, t.files, i.size))
  {
    var i := t.instruction;
    OverlayExactly(blockDigest, base, i.blocks, t.files, i.size);
    OverlayErrors(blockDigest, base, i.blocks, t.files, i.size);
    if n < |i.blocks| && !IsGood(blockDigest, i.blocks[n], t.files, i.size)
       && (forall s <- i.blocks[..n] :: IsGood(blockDigest, s, t.files, i.size)) {
      FirstBad(blockDigest, base, i.blocks, t.files, i.size, n);
    }
  }

  lemma {:induction false} OverlayErrors(
    digest: Digest, file: Bytes, blocks: seq<Signature>, files: map<nat, Bytes>, size: nat)
    ensures var r := Overlay(digest, file, blocks, files, size); r.Applied? || r.BadBounds? || r.BadBlock?
    decreases |blocks|
  {
    if blocks != [] && IsGood(digest, blocks[0], files, size) {
      OverlayErrors(digest, WriteAt(file, blocks[0].offset, files[blocks[0].offset]), blocks[1..], files, size);
    }
  }

  lemma {:induction false} FirstBad(
    digest: Digest, file: Bytes, blocks: seq<Signature>, files: map<nat, Bytes>, size: nat, n: nat)
    requires n < |blocks| && !IsGood(digest, blocks[n], files, size)
    requires forall s <- blocks[..n] :: IsGood(digest, s, files, size)
    ensures Overlay(digest, file, blocks, files, size) == if InBounds(blocks[n], size) then BadBlock else BadBounds
    decreases n
  {
    if n > 0 {
      assert blocks[..n][0] in blocks[..n];
      assert blocks[0] == blocks[..n][0] && blocks[..n][1..] == blocks[1..][..n-1];
      FirstBad(digest, WriteAt(file, blocks[0].offset, files[blocks[0].offset]), blocks[1..], files, size, n - 1);
    }
  }
}
